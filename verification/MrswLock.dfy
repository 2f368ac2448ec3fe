/** The multi-reader, single-writer lock as a protocol of any number of threads.
    Every access to the mutex, to the semaphore and to a counter is one step, and
    the steps of different threads interleave freely. */
module MrswLock {

  /** Where a thread is. The names follow the calls: `Get` is the look-up of the
      write thread's id inside a write acquire, `Nest` a repeated write acquire,
      `Want` a first one, `Read` a read acquire, `Drop` a read release and `Free`
      a write release. Each names the next statement to execute. */
  datatype Pc =
    | Idle
    | GetLock | GetId | GetUnlock | GetCompare
    | NestLock | NestCount | NestUnlock
    | WantToken | WantLock | WantCheck | WantUnlock | WantOwn
    | ReadLock | ReadReset | ReadCount | ReadUnlock
    | DropLock | DropCount | DropPost | DropUnlock
    | FreeLock | FreeCheck | FreeInner | FreeOwn | FreePost | FreeUnlock | FreeNested

  /** `reading` and `writing` are the thread's outstanding acquisitions; `seen` is
      the write thread id it last looked up. */
  datatype Thread = Thread(pc: Pc, seen: nat, reading: nat, writing: nat)

  /** The fields of the lock, with the recursive mutex and the semaphore as
      primitives. Thread `t` has id `t + 1`; 0 is no thread. */
  datatype Shared = Shared(owner: nat, depth: nat, token: nat, readers: int, writers: int, writeThread: nat)

  datatype State = State(sh: Shared, threads: seq<Thread>)

  /** What an idle thread may call: releases are paired with acquisitions. */
  datatype Call = AcquireRead | AcquireWrite | ReleaseRead | ReleaseWrite

  /** MRSWLock_create posts the semaphore once. */
  ghost predicate Init(s: State) {
    && s.sh == Shared(0, 0, 1, 0, 0, 0)
    && forall t :: 0 <= t < |s.threads| ==> s.threads[t] == Thread(Idle, 0, 0, 0)
  }

  // ----- primitives

  predicate CanLock(sh: Shared, t: nat) {
    sh.owner == 0 || sh.owner == t + 1
  }

  function Lock(sh: Shared, t: nat): Shared {
    sh.(owner := t + 1, depth := sh.depth + 1)
  }

  function Unlock(sh: Shared): Shared {
    if sh.depth <= 1 then sh.(owner := 0, depth := 0) else sh.(depth := sh.depth - 1)
  }

  predicate Locking(pc: Pc) {
    pc in {GetLock, NestLock, WantLock, ReadLock, DropLock, FreeLock}
  }

  /** Whether thread `t` can take a step. */
  predicate Enabled(sh: Shared, th: Thread, t: nat, c: Call) {
    if th.pc.Idle? then
      match c
      case AcquireRead => true
      case AcquireWrite => true
      case ReleaseRead => th.reading > 0
      case ReleaseWrite => th.writing > 0
    else if Locking(th.pc) then CanLock(sh, t)
    else th.pc.WantToken? ==> sh.token > 0
  }

  /** The step: what becomes of the lock and of the thread. */
  function Step(sh: Shared, th: Thread, t: nat, c: Call): (Shared, Thread)
    requires Enabled(sh, th, t, c)
  {
    match th.pc
    case Idle =>
      (sh, th.(pc := match c
                     case AcquireRead => ReadLock
                     case AcquireWrite => GetLock
                     case ReleaseRead => DropLock
                     case ReleaseWrite => FreeLock))
    // MRSWLock_getWriteThreadId, then the comparison with the own id
    case GetLock => (Lock(sh, t), th.(pc := GetId))
    case GetId => (sh, th.(pc := GetUnlock, seen := sh.writeThread))
    case GetUnlock => (Unlock(sh), th.(pc := GetCompare))
    case GetCompare => (sh, th.(pc := if th.seen == t + 1 then NestLock else WantToken))
    // already the writer: count once more
    case NestLock => (Lock(sh, t), th.(pc := NestCount))
    case NestCount => (sh.(writers := sh.writers + 1), th.(pc := NestUnlock, writing := th.writing + 1))
    case NestUnlock => (Unlock(sh), th.(pc := Idle))
    // wait for the token, lock, and retry while there are readers
    case WantToken => (sh.(token := sh.token - 1), th.(pc := WantLock))
    case WantLock => (Lock(sh, t), th.(pc := WantCheck))
    case WantCheck => (sh, th.(pc := if sh.readers == 0 then WantOwn else WantUnlock))
    case WantUnlock => (Unlock(sh), th.(pc := WantToken))
    case WantOwn => (sh.(writeThread := t + 1), th.(pc := Idle, writing := th.writing + 1))
    // the first reader takes the token away if it is there
    case ReadLock => (Lock(sh, t), th.(pc := ReadReset))
    case ReadReset =>
      (if sh.readers == 0 && sh.token > 0 then sh.(token := sh.token - 1) else sh, th.(pc := ReadCount))
    case ReadCount => (sh.(readers := sh.readers + 1), th.(pc := ReadUnlock, reading := th.reading + 1))
    case ReadUnlock => (Unlock(sh), th.(pc := Idle))
    // the last reader gives the token back
    case DropLock => (Lock(sh, t), th.(pc := DropCount))
    case DropCount =>
      (sh.(readers := sh.readers - 1), th.(pc := DropPost, reading := if th.reading > 0 then th.reading - 1 else 0))
    case DropPost => (if sh.readers == 0 then sh.(token := sh.token + 1) else sh, th.(pc := DropUnlock))
    case DropUnlock => (Unlock(sh), th.(pc := Idle))
    // release a write lock: undo the nesting, or give up the lock for good
    case FreeLock => (Lock(sh, t), th.(pc := FreeCheck))
    case FreeCheck =>
      if sh.writers > 0 then
        (sh.(writers := sh.writers - 1), th.(pc := FreeNested, writing := if th.writing > 0 then th.writing - 1 else 0))
      else (sh, th.(pc := FreeInner))
    case FreeInner => (Unlock(sh), th.(pc := FreeOwn))
    case FreeOwn =>
      (sh.(writeThread := 0), th.(pc := FreePost, writing := if th.writing > 0 then th.writing - 1 else 0))
    case FreePost => (sh.(token := sh.token + 1), th.(pc := FreeUnlock))
    case FreeUnlock => (Unlock(sh), th.(pc := Idle))
    case FreeNested => (Unlock(sh), th.(pc := Idle))
  }

  predicate CanStep(s: State, t: nat, c: Call) {
    t < |s.threads| && Enabled(s.sh, s.threads[t], t, c)
  }

  function Next(s: State, t: nat, c: Call): State
    requires CanStep(s, t, c)
  {
    var (sh, th) := Step(s.sh, s.threads[t], t, c);
    State(sh, s.threads[t := th])
  }

  /** A run: which thread steps, and what it calls when it is idle. */
  ghost predicate Run(s: State, moves: seq<(nat, Call)>, s': State)
    decreases |moves|
  {
    if moves == [] then s' == s
    else CanStep(s, moves[0].0, moves[0].1) && Run(Next(s, moves[0].0, moves[0].1), moves[1..], s')
  }

  ghost predicate Reachable(s: State) {
    exists s0, moves :: Init(s0) && Run(s0, moves, s)
  }

  // ----- what one thread keeps

  /** The thread is between a successful check for readers and the end of its
      last write release, so it holds the mutex throughout. */
  predicate Inside(th: Thread) {
    th.writing > 0 || th.pc.WantOwn? || th.pc.FreePost? || th.pc.FreeUnlock?
  }

  predicate InnerLock(pc: Pc) {
    pc in {GetId, GetUnlock, NestCount, NestUnlock, WantCheck, WantUnlock, ReadReset, ReadCount, ReadUnlock,
           DropCount, DropPost, DropUnlock, FreeCheck, FreeInner, FreeNested}
  }

  /** How often the thread has locked the mutex. */
  function Held(th: Thread): nat {
    (if Inside(th) then 1 else 0) + (if InnerLock(th.pc) then 1 else 0)
  }

  predicate HoldsMutex(sh: Shared, th: Thread, t: nat) {
    Held(th) == (if sh.owner == t + 1 then sh.depth else 0)
  }

  predicate Local(sh: Shared, th: Thread, t: nat) {
    HoldsMutex(sh, th, t) && Counted(sh, th, t) && InStep(sh, th, t)
  }

  /** The writer's identity and nesting are those of the thread that writes. */
  predicate Counted(sh: Shared, th: Thread, t: nat) {
    (th.writing > 0 <==> sh.writeThread == t + 1) && (th.writing > 0 ==> sh.writers == th.writing - 1)
  }

  /** What a thread holds at each place in its calls. */
  predicate InStep(sh: Shared, th: Thread, t: nat) {
    && (th.pc in {GetUnlock, GetCompare} ==> (th.seen == t + 1 <==> th.writing > 0))
    && (th.pc in {NestLock, NestCount, NestUnlock, FreeLock, FreeCheck, FreeInner, FreeOwn, FreeNested} ==>
          th.writing > 0)
    && (th.pc in {FreeInner, FreeOwn} ==> th.writing == 1)
    && (th.pc in {WantToken, WantLock, WantCheck, WantUnlock, WantOwn, FreePost, FreeUnlock} ==> th.writing == 0)
    && (th.pc in {DropLock, DropCount} ==> th.reading > 0)
    && (th.pc.WantOwn? ==> sh.readers == 0)
  }

  /** Nobody reads beside a writer. */
  predicate Apart(th: Thread, other: Thread) {
    (th.writing > 0 || th.pc.WantOwn?) ==> other.reading == 0
  }

  predicate Steady(sh: Shared) {
    && (sh.owner == 0 <==> sh.depth == 0)
    && (sh.writeThread == 0 ==> sh.writers == 0)
    && (sh.writeThread != 0 ==> sh.owner == sh.writeThread)
  }

  lemma StepLocal(sh: Shared, th: Thread, t: nat, c: Call)
    requires Enabled(sh, th, t, c) && Local(sh, th, t) && Steady(sh)
    ensures var (sh', th') := Step(sh, th, t, c); Local(sh', th', t) && Steady(sh')
  {
    StepMutex(sh, th, t, c);
    StepCounted(sh, th, t, c);
    StepInStep(sh, th, t, c);
    hide HoldsMutex, Counted, InStep, Step, Steady;
  }

  lemma StepCounted(sh: Shared, th: Thread, t: nat, c: Call)
    requires Enabled(sh, th, t, c) && Local(sh, th, t) && Steady(sh)
    ensures var (sh', th') := Step(sh, th, t, c); Counted(sh', th', t)
  {
    StepMutex(sh, th, t, c);
    hide HoldsMutex;
  }

  lemma StepInStep(sh: Shared, th: Thread, t: nat, c: Call)
    requires Enabled(sh, th, t, c) && Local(sh, th, t) && Steady(sh)
    ensures var (sh', th') := Step(sh, th, t, c); InStep(sh', th', t)
  {
    hide HoldsMutex;
  }

  lemma StepMutex(sh: Shared, th: Thread, t: nat, c: Call)
    requires Enabled(sh, th, t, c) && Local(sh, th, t) && Steady(sh)
    ensures var (sh', th') := Step(sh, th, t, c);
      HoldsMutex(sh', th', t) && Steady(sh') && (th.pc.WantOwn? ==> sh.writers == 0)
  {
  }

  lemma StepOther(sh: Shared, th: Thread, t: nat, c: Call, other: Thread, u: nat)
    requires t != u && Enabled(sh, th, t, c) && Steady(sh)
    requires Local(sh, th, t) && Local(sh, other, u) && Apart(th, other) && Apart(other, th)
    requires sh.readers == 0 ==> other.reading == 0
    ensures var (sh', th') := Step(sh, th, t, c);
      Local(sh', other, u) && Apart(th', other) && Apart(other, th')
  {
  }

  // ----- all threads

  function Readers(ts: seq<Thread>): nat {
    if ts == [] then 0 else ts[0].reading + Readers(ts[1..])
  }

  lemma {:induction false} ReadersUpdate(ts: seq<Thread>, t: nat, th: Thread)
    requires t < |ts|
    ensures Readers(ts[t := th]) == Readers(ts) - ts[t].reading + th.reading
  {
    if t > 0 {
      ReadersUpdate(ts[1..], t - 1, th);
      assert ts[t := th][1..] == ts[1..][t - 1 := th];
    } else {
      assert ts[t := th][1..] == ts[1..];
    }
  }

  lemma {:induction false} ReadersMember(ts: seq<Thread>, t: nat)
    requires t < |ts|
    ensures ts[t].reading <= Readers(ts)
  {
    if t > 0 {
      ReadersMember(ts[1..], t - 1);
    }
  }

  ghost predicate Inv(s: State) {
    && Steady(s.sh) && s.sh.readers == Readers(s.threads)
    && s.sh.owner <= |s.threads| && s.sh.writeThread <= |s.threads|
    && (forall t :: 0 <= t < |s.threads| ==> Local(s.sh, s.threads[t], t))
    && (forall t, u :: 0 <= t < |s.threads| && 0 <= u < |s.threads| && t != u ==> Apart(s.threads[t], s.threads[u]))
  }

  lemma InitInv(s: State)
    requires Init(s)
    ensures Inv(s)
  {
    NoReaders(s.threads);
  }

  lemma {:induction false} NoReaders(ts: seq<Thread>)
    requires forall t :: 0 <= t < |ts| ==> ts[t].reading == 0
    ensures Readers(ts) == 0
  {
    if ts != [] {
      NoReaders(ts[1..]);
    }
  }

  lemma NextReaders(s: State, t: nat, c: Call)
    requires Inv(s) && CanStep(s, t, c)
    ensures Next(s, t, c).sh.readers == Readers(Next(s, t, c).threads)
  {
    assert Local(s.sh, s.threads[t], t);
    ReadersUpdate(s.threads, t, Step(s.sh, s.threads[t], t, c).1);
  }

  lemma NextInv(s: State, t: nat, c: Call)
    requires Inv(s) && CanStep(s, t, c)
    ensures Inv(Next(s, t, c))
  {
    hide Local, Apart, Step, Enabled;
    var s' := Next(s, t, c);
    NextReaders(s, t, c);
    StepLocal(s.sh, s.threads[t], t, c);
    StepBounds(s.sh, s.threads[t], t, c);
    forall u | 0 <= u < |s.threads| && u != t
      ensures Local(s'.sh, s'.threads[u], u)
      ensures Apart(s'.threads[t], s'.threads[u]) && Apart(s'.threads[u], s'.threads[t])
    {
      ReadersMember(s.threads, u);
      StepOther(s.sh, s.threads[t], t, c, s.threads[u], u);
    }
  }

  lemma StepBounds(sh: Shared, th: Thread, t: nat, c: Call)
    requires Enabled(sh, th, t, c)
    ensures var sh' := Step(sh, th, t, c).0;
      && (sh'.owner == sh.owner || sh'.owner == 0 || sh'.owner == t + 1)
      && (sh'.writeThread == sh.writeThread || sh'.writeThread == 0 || sh'.writeThread == t + 1)
  {
  }

  lemma {:induction false} RunInv(s: State, moves: seq<(nat, Call)>, s': State)
    requires Inv(s) && Run(s, moves, s')
    ensures Inv(s')
    decreases |moves|
  {
    if moves != [] {
      NextInv(s, moves[0].0, moves[0].1);
      RunInv(Next(s, moves[0].0, moves[0].1), moves[1..], s');
    }
  }

  lemma ReachableInv(s: State)
    requires Reachable(s)
    ensures Inv(s)
  {
    var s0, moves :| Init(s0) && Run(s0, moves, s);
    InitInv(s0);
    RunInv(s0, moves, s);
  }

  // ----- exclusion

  /** While a thread holds the write lock, no other thread holds the lock at all;
      the reader count is the number of outstanding read acquisitions; and the
      nesting counter is one less than the holder's outstanding acquisitions, so
      that the lock is given up with the last of as many releases. */
  lemma Exclusion(s: State, t: nat)
    requires Reachable(s) && t < |s.threads|
    ensures s.sh.readers == Readers(s.threads)
    ensures s.threads[t].writing > 0 <==> s.sh.writeThread == t + 1
    ensures s.threads[t].writing > 0 ==> s.sh.writers == s.threads[t].writing - 1
    ensures s.threads[t].writing > 0 ==>
      forall u :: 0 <= u < |s.threads| && u != t ==> s.threads[u].writing == 0 && s.threads[u].reading == 0
  {
    ReachableInv(s);
    assert Local(s.sh, s.threads[t], t);
    forall u | 0 <= u < |s.threads| && u != t && s.threads[t].writing > 0
      ensures s.threads[u].writing == 0 && s.threads[u].reading == 0
    {
      assert Local(s.sh, s.threads[u], u);
      assert Apart(s.threads[t], s.threads[u]);
    }
  }

  /** A write acquire that returns found no reader, and one release of a lock
      acquired `k` times leaves it acquired `k - 1` times. */
  lemma WriteSteps(s: State, t: nat, c: Call)
    requires Reachable(s) && CanStep(s, t, c)
    ensures s.threads[t].pc.WantOwn? ==> s.sh.readers == 0 && Next(s, t, c).threads[t].writing == 1
    ensures s.threads[t].pc.NestCount? ==> Next(s, t, c).threads[t].writing == s.threads[t].writing + 1
    ensures s.threads[t].pc.FreeCheck? && s.threads[t].writing > 1 ==>
      Next(s, t, c).threads[t].writing == s.threads[t].writing - 1 && Next(s, t, c).sh.writeThread == t + 1
    ensures s.threads[t].pc.FreeOwn? ==>
      s.threads[t].writing == 1 && Next(s, t, c).threads[t].writing == 0 && Next(s, t, c).sh.writeThread == 0
  {
    ReachableInv(s);
    assert Local(s.sh, s.threads[t], t);
  }

  // ----- calls that have returned

  /** How many calls `c` thread `t` makes in a run: its moves while it is idle. */
  ghost function Calls(s: State, moves: seq<(nat, Call)>, t: nat, c: Call): nat
    decreases |moves|
  {
    if moves == [] || !CanStep(s, moves[0].0, moves[0].1) || t >= |s.threads| then 0
    else
      (if moves[0] == (t, c) && s.threads[t].pc.Idle? then 1 else 0) +
      Calls(Next(s, moves[0].0, moves[0].1), moves[1..], t, c)
  }

  /** What a thread's call under way has still to do to its acquisitions. */
  function OwedWrite(pc: Pc): int {
    if pc in {GetLock, GetId, GetUnlock, GetCompare, NestLock, NestCount,
              WantToken, WantLock, WantCheck, WantUnlock, WantOwn} then 1
    else if pc in {FreeLock, FreeCheck, FreeInner, FreeOwn} then -1
    else 0
  }

  function OwedRead(pc: Pc): int {
    if pc in {ReadLock, ReadReset, ReadCount} then 1 else if pc in {DropLock, DropCount} then -1 else 0
  }

  function MeansWrite(c: Call): int {
    match c
    case AcquireWrite => 1
    case ReleaseWrite => -1
    case AcquireRead => 0
    case ReleaseRead => 0
  }

  function MeansRead(c: Call): int {
    match c
    case AcquireRead => 1
    case ReleaseRead => -1
    case AcquireWrite => 0
    case ReleaseWrite => 0
  }

  /** A step does what the call still owes, and only a new call owes more. */
  lemma StepOwed(sh: Shared, th: Thread, t: nat, c: Call)
    requires Enabled(sh, th, t, c) && Local(sh, th, t)
    ensures var th' := Step(sh, th, t, c).1;
      && th'.writing + OwedWrite(th'.pc) == th.writing + OwedWrite(th.pc) + (if th.pc.Idle? then MeansWrite(c) else 0)
      && th'.reading + OwedRead(th'.pc) == th.reading + OwedRead(th.pc) + (if th.pc.Idle? then MeansRead(c) else 0)
  {
    hide HoldsMutex;
  }

  lemma {:induction false} RunOwed(s: State, moves: seq<(nat, Call)>, s': State, t: nat)
    requires Inv(s) && Run(s, moves, s') && t < |s.threads|
    ensures |s'.threads| == |s.threads|
    ensures s'.threads[t].writing + OwedWrite(s'.threads[t].pc) ==
      s.threads[t].writing + OwedWrite(s.threads[t].pc)
      + Calls(s, moves, t, AcquireWrite) - Calls(s, moves, t, ReleaseWrite)
    ensures s'.threads[t].reading + OwedRead(s'.threads[t].pc) ==
      s.threads[t].reading + OwedRead(s.threads[t].pc)
      + Calls(s, moves, t, AcquireRead) - Calls(s, moves, t, ReleaseRead)
    decreases |moves|
  {
    hide Step, Enabled, Local, OwedWrite, OwedRead, Steady, Apart;
    if moves != [] {
      var u, c := moves[0].0, moves[0].1;
      NextInv(s, u, c);
      if u == t {
        StepOwed(s.sh, s.threads[t], t, c);
      }
      RunOwed(Next(s, u, c), moves[1..], s', t);
    }
  }

  /** In every run, when a thread's calls have returned, it holds the lock as often
      as it has acquired it and not released it, each way. */
  lemma CallsCount(s0: State, moves: seq<(nat, Call)>, s: State, t: nat)
    requires Init(s0) && Run(s0, moves, s) && t < |s.threads| && s.threads[t].pc.Idle?
    ensures |s0.threads| == |s.threads|
    ensures s.threads[t].writing == Calls(s0, moves, t, AcquireWrite) - Calls(s0, moves, t, ReleaseWrite)
    ensures s.threads[t].reading == Calls(s0, moves, t, AcquireRead) - Calls(s0, moves, t, ReleaseRead)
    ensures CanStep(s, t, AcquireRead) && CanStep(s, t, AcquireWrite)
    ensures CanStep(s, t, ReleaseRead) <==> Calls(s0, moves, t, ReleaseRead) < Calls(s0, moves, t, AcquireRead)
    ensures CanStep(s, t, ReleaseWrite) <==> Calls(s0, moves, t, ReleaseWrite) < Calls(s0, moves, t, AcquireWrite)
  {
    RunThreads(s0, moves, s);
    InitInv(s0);
    RunOwed(s0, moves, s, t);
  }

  lemma {:induction false} RunThreads(s: State, moves: seq<(nat, Call)>, s': State)
    requires Run(s, moves, s')
    ensures |s'.threads| == |s.threads|
    decreases |moves|
  {
    hide Step, Enabled;
    if moves != [] {
      RunThreads(Next(s, moves[0].0, moves[0].1), moves[1..], s');
    }
  }

  /** Exclusion by the callers' own counts: a thread whose write acquires exceed its
      write releases is the writer, the lock counts the excess, and as long as it
      lasts no other thread has an acquire of either kind outstanding. So `k` write
      acquires need `k` releases. */
  lemma CallersExcluded(s0: State, moves: seq<(nat, Call)>, s: State, t: nat, u: nat)
    requires Init(s0) && Run(s0, moves, s) && t < |s.threads| && u < |s.threads| && t != u
    requires s.threads[t].pc.Idle? && s.threads[u].pc.Idle?
    ensures var held := Calls(s0, moves, t, AcquireWrite) - Calls(s0, moves, t, ReleaseWrite);
      && held >= 0 && (held > 0 <==> s.sh.writeThread == t + 1)
      && (held > 0 ==> s.sh.writers == held - 1)
      && (held > 0 ==> Calls(s0, moves, u, AcquireWrite) == Calls(s0, moves, u, ReleaseWrite))
      && (held > 0 ==> Calls(s0, moves, u, AcquireRead) == Calls(s0, moves, u, ReleaseRead))
  {
    CallsCount(s0, moves, s, t);
    CallsCount(s0, moves, s, u);
    Exclusion(s, t);
  }

  /** When all calls have returned, the reader count is that of the callers. */
  lemma ReadersCount(s0: State, moves: seq<(nat, Call)>, s: State)
    requires Init(s0) && Run(s0, moves, s) && forall t :: 0 <= t < |s.threads| ==> s.threads[t].pc.Idle?
    ensures s.sh.readers == Outstanding(s0, moves, |s.threads|)
  {
    InitInv(s0);
    RunInv(s0, moves, s);
    ReadersSum(s0, moves, s, |s.threads|);
    assert s.threads[..|s.threads|] == s.threads;
  }

  /** Read acquires without release of the first `n` threads. */
  ghost function Outstanding(s0: State, moves: seq<(nat, Call)>, n: nat): int {
    if n == 0 then 0
    else Outstanding(s0, moves, n - 1) + Calls(s0, moves, n - 1, AcquireRead) - Calls(s0, moves, n - 1, ReleaseRead)
  }

  lemma {:induction false} ReadersSum(s0: State, moves: seq<(nat, Call)>, s: State, n: nat)
    requires Init(s0) && Run(s0, moves, s) && n <= |s.threads|
    requires forall t :: 0 <= t < |s.threads| ==> s.threads[t].pc.Idle?
    ensures Readers(s.threads[..n]) == Outstanding(s0, moves, n)
    decreases n
  {
    hide Init, Run, Calls;
    if n > 0 {
      ReadersSum(s0, moves, s, n - 1);
      CallsCount(s0, moves, s, n - 1);
      ReadersLast(s.threads[..n]);
      assert s.threads[..n][..n - 1] == s.threads[..n - 1];
    }
  }

  lemma {:induction false} ReadersLast(ts: seq<Thread>)
    requires ts != []
    ensures Readers(ts) == Readers(ts[..|ts| - 1]) + ts[|ts| - 1].reading
    decreases |ts|
  {
    if |ts| > 1 {
      ReadersLast(ts[1..]);
      assert ts[1..][..|ts| - 2] == ts[..|ts| - 1][1..];
    }
  }

  // ----- the token

  /** The thread stands for the token: it has taken it and not yet found out
      about readers, or it is a writer, or it is about to count itself as a
      reader or to post. */
  predicate Keeps(th: Thread) {
    th.writing > 0 || th.pc in {WantLock, WantCheck, WantOwn, FreePost, ReadCount, DropPost}
  }

  ghost predicate TokenSafe(s: State) {
    s.sh.readers > 0 || s.sh.token > 0 || exists t :: 0 <= t < |s.threads| && Keeps(s.threads[t])
  }

  lemma StepKeeps(sh: Shared, th: Thread, t: nat, c: Call)
    requires Enabled(sh, th, t, c) && Local(sh, th, t) && sh.readers >= 0
    requires sh.readers > 0 || sh.token > 0 || Keeps(th)
    ensures var (sh', th') := Step(sh, th, t, c); sh'.readers > 0 || sh'.token > 0 || Keeps(th')
  {
  }

  lemma NextToken(s: State, t: nat, c: Call)
    requires Inv(s) && CanStep(s, t, c) && TokenSafe(s)
    ensures TokenSafe(Next(s, t, c))
  {
    hide Step, Enabled, Local;
    var s' := Next(s, t, c);
    assert Local(s.sh, s.threads[t], t);
    if u :| 0 <= u < |s.threads| && u != t && Keeps(s.threads[u]) {
      assert s'.threads[u] == s.threads[u];
    } else {
      StepKeeps(s.sh, s.threads[t], t, c);
      assert s'.threads[t] == Step(s.sh, s.threads[t], t, c).1;
    }
  }

  lemma {:induction false} RunToken(s: State, moves: seq<(nat, Call)>, s': State)
    requires Inv(s) && TokenSafe(s) && Run(s, moves, s')
    ensures TokenSafe(s')
    decreases |moves|
  {
    if moves != [] {
      NextInv(s, moves[0].0, moves[0].1);
      NextToken(s, moves[0].0, moves[0].1);
      RunToken(Next(s, moves[0].0, moves[0].1), moves[1..], s');
    }
  }

  lemma ReachableToken(s: State)
    requires Reachable(s)
    ensures TokenSafe(s)
  {
    var s0, moves :| Init(s0) && Run(s0, moves, s);
    InitInv(s0);
    RunToken(s0, moves, s);
  }

  // ----- how many tokens there are

  /** The thread has ended the last hold of the lock and not posted for it yet. */
  function Owes(sh: Shared, th: Thread): nat {
    if th.pc.FreePost? || (th.pc.DropPost? && sh.readers == 0) then 1 else 0
  }

  function AllOwe(sh: Shared, ts: seq<Thread>): nat {
    if ts == [] then 0 else Owes(sh, ts[0]) + AllOwe(sh, ts[1..])
  }

  /** The lock is no longer read, or no longer written. */
  predicate Ends(sh: Shared, sh': Shared) {
    (sh.readers != 0 && sh'.readers == 0) || (sh.writeThread != 0 && sh'.writeThread == 0)
  }

  function Bit(b: bool): nat {
    if b then 1 else 0
  }

  /** A token comes for the end of a hold, one for each; one goes to a writer that
      waits for it, or to a reader that finds no other. */
  lemma StepBalance(sh: Shared, th: Thread, t: nat, c: Call)
    requires Enabled(sh, th, t, c) && Local(sh, th, t) && sh.readers >= th.reading
    ensures var (sh', th') := Step(sh, th, t, c);
      && sh'.token + Owes(sh', th') + Bit(sh'.token < sh.token) == sh.token + Owes(sh, th) + Bit(Ends(sh, sh'))
      && (sh'.token < sh.token <==>
          th.pc.WantToken? || (th.pc.ReadReset? && sh.readers == 0 && sh.token > 0))
      && (sh'.readers != sh.readers ==> sh.owner == t + 1)
  {
  }

  lemma {:induction false} AllOweUpdate(sh: Shared, ts: seq<Thread>, t: nat, th: Thread)
    requires t < |ts|
    ensures AllOwe(sh, ts[t := th]) == AllOwe(sh, ts) - Owes(sh, ts[t]) + Owes(sh, th)
    decreases |ts|
  {
    if t > 0 {
      AllOweUpdate(sh, ts[1..], t - 1, th);
      assert ts[t := th][1..] == ts[1..][t - 1 := th];
    } else {
      assert ts[t := th][1..] == ts[1..];
    }
  }

  /** Other threads owe as before: only the holder of the mutex changes the count. */
  lemma {:induction false} AllOweSame(sh: Shared, sh': Shared, ts: seq<Thread>)
    requires forall u :: 0 <= u < |ts| ==> Owes(sh', ts[u]) == Owes(sh, ts[u])
    ensures AllOwe(sh', ts) == AllOwe(sh, ts)
    decreases |ts|
  {
    if ts != [] {
      AllOweSame(sh, sh', ts[1..]);
    }
  }

  lemma NextBalance(s: State, t: nat, c: Call)
    requires Inv(s) && CanStep(s, t, c)
    ensures var s' := Next(s, t, c);
      s'.sh.token + AllOwe(s'.sh, s'.threads) + Bit(s'.sh.token < s.sh.token) ==
      s.sh.token + AllOwe(s.sh, s.threads) + Bit(Ends(s.sh, s'.sh))
  {
    var s', th := Next(s, t, c), s.threads[t];
    assert Local(s.sh, th, t);
    ReadersMember(s.threads, t);
    StepBalance(s.sh, th, t, c);
    var others := s.threads[t := s'.threads[t].(pc := Idle)];
    forall u | 0 <= u < |others|
      ensures Owes(s'.sh, others[u]) == Owes(s.sh, others[u])
    {
      if u != t {
        assert Local(s.sh, s.threads[u], u);
      }
    }
    hide Step, Enabled, Local, Owes;
    AllOweSame(s.sh, s'.sh, others);
    AllOweUpdate(s.sh, s.threads, t, others[t]);
    AllOweUpdate(s'.sh, others, t, s'.threads[t]);
    assert others[t := s'.threads[t]] == s'.threads;
    NoneOwed(s.sh, s'.sh, others[t]);
  }

  lemma NoneOwed(sh: Shared, sh': Shared, th: Thread)
    requires th.pc.Idle?
    ensures Owes(sh, th) == Owes(sh', th) == 0
  {
  }

  /** How often in a run a hold ends, and how often a token is taken. */
  ghost function Ended(s: State, moves: seq<(nat, Call)>): nat
    decreases |moves|
  {
    if moves == [] || !CanStep(s, moves[0].0, moves[0].1) then 0
    else
      var s1 := Next(s, moves[0].0, moves[0].1);
      Bit(Ends(s.sh, s1.sh)) + Ended(s1, moves[1..])
  }

  ghost function Taken(s: State, moves: seq<(nat, Call)>): nat
    decreases |moves|
  {
    if moves == [] || !CanStep(s, moves[0].0, moves[0].1) then 0
    else
      var s1 := Next(s, moves[0].0, moves[0].1);
      Bit(s1.sh.token < s.sh.token) + Taken(s1, moves[1..])
  }

  lemma {:induction false} RunBalance(s: State, moves: seq<(nat, Call)>, s': State)
    requires Inv(s) && Run(s, moves, s')
    ensures s'.sh.token + AllOwe(s'.sh, s'.threads) + Taken(s, moves) ==
      s.sh.token + AllOwe(s.sh, s.threads) + Ended(s, moves)
    decreases |moves|
  {
    hide Step, Enabled, Local, Ends, AllOwe;
    if moves != [] {
      NextInv(s, moves[0].0, moves[0].1);
      NextBalance(s, moves[0].0, moves[0].1);
      RunBalance(Next(s, moves[0].0, moves[0].1), moves[1..], s');
    }
  }

  /** In every run the semaphore has one token, plus one for each end of a hold that
      has been posted, less those taken. */
  lemma TokenBalance(s0: State, moves: seq<(nat, Call)>, s: State)
    requires Init(s0) && Run(s0, moves, s)
    ensures s.sh.token + AllOwe(s.sh, s.threads) == 1 + Ended(s0, moves) - Taken(s0, moves)
  {
    InitInv(s0);
    NobodyOwes(s0.sh, s0.threads);
    RunBalance(s0, moves, s);
  }

  lemma {:induction false} NobodyOwes(sh: Shared, ts: seq<Thread>)
    requires forall t :: 0 <= t < |ts| ==> ts[t].pc.Idle?
    ensures AllOwe(sh, ts) == 0
    decreases |ts|
  {
    if ts != [] {
      NobodyOwes(sh, ts[1..]);
    }
  }

  // ----- nobody waits in vain

  ghost predicate Unused(s: State) {
    forall t :: 0 <= t < |s.threads| ==> s.threads[t].reading == 0 && s.threads[t].writing == 0
  }

  /** The thread is between taking the token and checking for readers, or is
      about to post it, or is a first reader that has not counted itself yet. */
  predicate Underway(th: Thread) {
    th.pc in {WantLock, WantCheck, WantOwn, FreePost, ReadCount, DropPost}
  }

  /** In every reachable state with no reader and no writer, the semaphore is
      signalled or the token is under way with some thread; when nobody is in the
      mutex either, that thread is a writer which has not yet checked for readers. */
  lemma TokenNeverLost(s: State)
    requires Reachable(s) && s.sh.readers == 0 && s.sh.writeThread == 0
    ensures s.sh.token > 0 || exists t :: 0 <= t < |s.threads| && Underway(s.threads[t])
    ensures s.sh.owner == 0 ==> s.sh.token > 0 || exists t :: 0 <= t < |s.threads| && s.threads[t].pc.WantLock?
  {
    ReachableInv(s);
    ReachableToken(s);
    if s.sh.token == 0 {
      var t :| 0 <= t < |s.threads| && Keeps(s.threads[t]);
      assert Local(s.sh, s.threads[t], t);
      assert Underway(s.threads[t]);
    }
  }

  /** A writer waiting on a lock that nobody holds is never stranded: as long as
      some thread is inside a call, one of the threads inside calls can step. */
  lemma NeverStranded(s: State, w: nat, c: Call) returns (t: nat)
    requires Reachable(s) && Unused(s) && w < |s.threads| && !s.threads[w].pc.Idle?
    ensures CanStep(s, t, c) && !s.threads[t].pc.Idle?
  {
    ReachableInv(s);
    if s.sh.owner != 0 {
      t := s.sh.owner - 1;
      assert Local(s.sh, s.threads[t], t);
    } else if s.threads[w].pc.WantToken? && s.sh.token == 0 {
      NoReaders(s.threads);
      TokenNeverLost(s);
      t :| 0 <= t < |s.threads| && s.threads[t].pc.WantLock?;
    } else {
      t := w;
    }
  }

  /** When every call has returned, or waits for the token, on a lock that nobody
      holds, the token is there. */
  lemma QuietMeansSignalled(s: State)
    requires Reachable(s) && Unused(s)
    requires forall t :: 0 <= t < |s.threads| ==> s.threads[t].pc.Idle? || s.threads[t].pc.WantToken?
    ensures s.sh.token > 0
  {
    ReachableInv(s);
    ReachableToken(s);
    NoReaders(s.threads);
  }
}
