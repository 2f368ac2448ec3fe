/** The fault-tolerance election of ft.c: members of a group exchange heartbeats
    that carry their credentials, defer to better ones, and go active when none
    is heard for a whole timeout. */
module FtElection {

  const WRAP := 0x1_0000_0000

  type U32 = x: int | 0 <= x < WRAP

  datatype State = Unknown | Active | Standby

  datatype Credentials = Cred(weight: U32, incarnation: U32, ip: int, pid: int)

  datatype Heartbeat = Heartbeat(cred: Credentials, group: string)

  /** A member after activation. `timer` says that the timeout timer exists. */
  datatype Member = Member(
    group: string, weight: U32, ip: int, pid: int, incarnation: U32, next: U32, state: State, timer: bool)
  {
    function Creds(): Credentials {
      Cred(weight, incarnation, ip, pid)
    }

    function Beat(): Heartbeat {
      Heartbeat(Creds(), group)
    }
  }

  // ----- credentials

  /** Is `other` better than `mine`: by weight, then incarnation, then address, then process? */
  predicate Better(mine: Credentials, other: Credentials) {
    if other.weight != mine.weight then other.weight > mine.weight
    else if other.incarnation != mine.incarnation then other.incarnation > mine.incarnation
    else if other.ip != mine.ip then other.ip > mine.ip
    else other.pid > mine.pid
  }

  predicate SameInstance(a: Credentials, b: Credentials) {
    a.ip == b.ip && a.pid == b.pid
  }

  /** Credentials are totally ordered; only equal ones tie, so instances never do. */
  lemma TotalOrder(a: Credentials, b: Credentials, c: Credentials)
    ensures !Better(a, a)
    ensures Better(a, b) && Better(b, c) ==> Better(a, c)
    ensures Better(a, b) ==> !Better(b, a)
    ensures !Better(a, b) && !Better(b, a) <==> a == b
    ensures !SameInstance(a, b) ==> Better(a, b) || Better(b, a)
  {
  }

  /** Each component decides when all before it are equal, and the greater one wins. */
  lemma RankedBy(a: Credentials, b: Credentials)
    ensures a.weight < b.weight ==> Better(a, b)
    ensures a.weight == b.weight && a.incarnation < b.incarnation ==> Better(a, b)
    ensures a.weight == b.weight && a.incarnation == b.incarnation && a.ip < b.ip ==> Better(a, b)
    ensures a.weight == b.weight && a.incarnation == b.incarnation && a.ip == b.ip && a.pid < b.pid ==> Better(a, b)
  {
  }

  /** The components in the order in which they count. */
  function Rank(c: Credentials): seq<int> {
    [c.weight, c.incarnation, c.ip, c.pid]
  }

  /** `r` comes before `q` in the dictionary order of number sequences. */
  predicate Lower(r: seq<int>, q: seq<int>)
    decreases |r|
  {
    r != [] && q != [] && (r[0] < q[0] || (r[0] == q[0] && Lower(r[1..], q[1..])))
  }

  lemma LowerFirst(x: int, r: seq<int>, y: int, q: seq<int>)
    ensures Lower([x] + r, [y] + q) <==> x < y || (x == y && Lower(r, q))
  {
    assert ([x] + r)[1..] == r && ([y] + q)[1..] == q;
  }

  lemma NoneLower()
    ensures !Lower([], [])
  {
  }

  /** So the better credentials are those of the higher rank. */
  lemma BetterIsHigher(a: Credentials, b: Credentials)
    ensures Better(a, b) <==> Lower(Rank(a), Rank(b))
  {
    LowerFirst(a.weight, [a.incarnation, a.ip, a.pid], b.weight, [b.incarnation, b.ip, b.pid]);
    LowerFirst(a.incarnation, [a.ip, a.pid], b.incarnation, [b.ip, b.pid]);
    LowerFirst(a.ip, [a.pid], b.ip, [b.pid]);
    LowerFirst(a.pid, [], b.pid, []);
    hide Lower, Better;
    assert Rank(a) == [a.weight] + [a.incarnation, a.ip, a.pid] && Rank(b) == [b.weight] + [b.incarnation, b.ip, b.pid];
    assert [a.incarnation, a.ip, a.pid] == [a.incarnation] + [a.ip, a.pid];
    assert [b.incarnation, b.ip, b.pid] == [b.incarnation] + [b.ip, b.pid];
    assert [a.ip, a.pid] == [a.ip] + [a.pid] && [b.ip, b.pid] == [b.ip] + [b.pid];
    assert [a.pid] == [a.pid] + [] && [b.pid] == [b.pid] + [];
    NoneLower();
    RankedBy(a, b);
    RankedBy(b, a);
    TotalOrder(a, b, b);
  }

  // ----- what a member does

  /** Does the member give way to this heartbeat? Other groups and its own heartbeats do not count. */
  predicate Defers(m: Member, hb: Heartbeat) {
    hb.group == m.group && !SameInstance(m.Creds(), hb.cred) && Better(m.Creds(), hb.cred)
  }

  function Bump(next: U32, heard: U32): U32 {
    if heard >= next then (heard + 1) % WRAP else next
  }

  /** mamaCheckHeartbeat. */
  function Hear(m: Member, hb: Heartbeat): Member {
    if Defers(m, hb) then m.(next := Bump(m.next, hb.cred.incarnation), state := Standby, timer := true) else m
  }

  /** Heartbeats of other groups, its own and those of lower rank leave the member as it is. */
  lemma Ignores(m: Member, hb: Heartbeat)
    ensures Hear(m, hb) == m || (hb.group == m.group && Lower(Rank(m.Creds()), Rank(hb.cred)))
    ensures SameInstance(m.Creds(), hb.cred) ==> Hear(m, hb) == m
    ensures hb.group == m.group && !SameInstance(m.Creds(), hb.cred) && Lower(Rank(m.Creds()), Rank(hb.cred)) ==>
      Hear(m, hb).state.Standby? && Hear(m, hb).timer
  {
    hide Better, Lower, Rank;
    BetterIsHigher(m.Creds(), hb.cred);
  }

  function HearAll(m: Member, hbs: seq<Heartbeat>): Member
    decreases |hbs|
  {
    if hbs == [] then m else HearAll(Hear(m, hbs[0]), hbs[1..])
  }

  predicate DefersToNone(m: Member, hbs: seq<Heartbeat>) {
    forall k :: 0 <= k < |hbs| ==> !Defers(m, hbs[k])
  }

  function GoActive(m: Member): Member {
    if m.state.Active? then m else m.(incarnation := m.next, state := Active, timer := false)
  }

  /** ftTimeoutTimerCb: takes in what is still unread, and goes active if none of it is better. */
  function Timeout(m: Member, unread: seq<Heartbeat>): Member {
    if DefersToNone(m, unread) then GoActive(HearAll(m, unread)) else HearAll(m, unread)
  }

  /** Hearing heartbeats changes no credentials, so a drain judges all of them alike. */
  lemma {:induction false} HearAllKeeps(m: Member, hbs: seq<Heartbeat>)
    ensures var m' := HearAll(m, hbs); m'.Creds() == m.Creds() && m'.group == m.group
    ensures var m' := HearAll(m, hbs); if DefersToNone(m, hbs) then m' == m else m'.state.Standby? && m'.timer
    decreases |hbs|
  {
    if hbs != [] {
      var m1 := Hear(m, hbs[0]);
      HearAllKeeps(m1, hbs[1..]);
      assert forall hb :: Defers(m1, hb) <==> Defers(m, hb);
      assert DefersToNone(m, hbs) ==> DefersToNone(m1, hbs[1..]) by {
        assert forall k :: 0 <= k < |hbs[1..]| ==> hbs[1..][k] == hbs[k + 1];
      }
      if !DefersToNone(m, hbs) && DefersToNone(m1, hbs[1..]) {
        var k :| 0 <= k < |hbs| && Defers(m, hbs[k]);
        assert k > 0 ==> hbs[1..][k - 1] == hbs[k];
      }
    }
  }

  // ----- runs of one member

  datatype Event = Received(hb: Heartbeat) | TimedOut(unread: seq<Heartbeat>)

  /** The timeout fires only while its timer exists. */
  predicate CanHappen(m: Member, e: Event) {
    e.TimedOut? ==> m.timer
  }

  function Handle(m: Member, e: Event): Member {
    match e
    case Received(hb) => Hear(m, hb)
    case TimedOut(unread) => Timeout(m, unread)
  }

  ghost predicate Run(m: Member, events: seq<Event>, m': Member)
    decreases |events|
  {
    if events == [] then m' == m else CanHappen(m, events[0]) && Run(Handle(m, events[0]), events[1..], m')
  }

  /** The heartbeats among `hbs` to which `m` defers. */
  ghost function DeferredAmong(m: Member, hbs: seq<Heartbeat>): set<Credentials> {
    set k | 0 <= k < |hbs| && Defers(m, hbs[k]) :: hbs[k].cred
  }

  ghost function DeferredAt(m: Member, e: Event): set<Credentials> {
    match e
    case Received(hb) => DeferredAmong(m, [hb])
    case TimedOut(unread) => DeferredAmong(m, unread)
  }

  /** All credentials a member has deferred to in a run. */
  ghost function Deferred(m: Member, events: seq<Event>): set<Credentials>
    decreases |events|
  {
    if events == [] then {} else DeferredAt(m, events[0]) + Deferred(Handle(m, events[0]), events[1..])
  }

  /** A member just activated after setup. */
  predicate Activated(m: Member) {
    m.incarnation == 0 && m.next == 1 && m.state.Unknown? && m.timer
  }

  /** What holds of a member that has deferred to `heard`. */
  ghost predicate Inv(m: Member, heard: set<Credentials>) {
    && (m.timer <==> !m.state.Active?)
    && (forall c :: c in heard ==> c.weight >= m.weight && c.incarnation < m.next)
    && (m.state.Active? ==> forall c :: c in heard && c.weight == m.weight ==> c.incarnation < m.incarnation)
  }

  lemma HearInv(m: Member, hb: Heartbeat, heard: set<Credentials>)
    requires Inv(m, heard) && (Defers(m, hb) ==> hb.cred.incarnation < WRAP - 1)
    ensures Inv(Hear(m, hb), heard + DeferredAmong(m, [hb]))
    ensures m.incarnation <= m.next ==> Hear(m, hb).incarnation <= Hear(m, hb).next
  {
    assert forall c :: c in DeferredAmong(m, [hb]) ==> c == hb.cred && Defers(m, hb);
  }

  lemma DeferredCons(m: Member, hbs: seq<Heartbeat>)
    requires hbs != []
    ensures DeferredAmong(m, hbs) == DeferredAmong(m, [hbs[0]]) + DeferredAmong(Hear(m, hbs[0]), hbs[1..])
  {
    var m1 := Hear(m, hbs[0]);
    assert forall hb :: Defers(m1, hb) <==> Defers(m, hb);
    forall c
      ensures c in DeferredAmong(m, hbs) <==> c in DeferredAmong(m, [hbs[0]]) + DeferredAmong(m1, hbs[1..])
    {
      if c in DeferredAmong(m, hbs) {
        var k :| 0 <= k < |hbs| && Defers(m, hbs[k]) && hbs[k].cred == c;
        assert if k == 0 then [hbs[0]][0] == hbs[k] else hbs[1..][k - 1] == hbs[k];
      }
      if c in DeferredAmong(m, [hbs[0]]) {
        assert c == hbs[0].cred && Defers(m, hbs[0]);
      }
      if c in DeferredAmong(m1, hbs[1..]) {
        var k :| 0 <= k < |hbs[1..]| && Defers(m1, hbs[1..][k]) && hbs[1..][k].cred == c;
        assert hbs[k + 1] == hbs[1..][k];
      }
    }
  }

  /** No incarnation is the last one, whose successor wraps around to 0. */
  ghost predicate NoneLast(heard: set<Credentials>) {
    forall c :: c in heard ==> c.incarnation < WRAP - 1
  }

  lemma {:induction false} HearAllInv(m: Member, hbs: seq<Heartbeat>, heard: set<Credentials>)
    requires Inv(m, heard) && NoneLast(DeferredAmong(m, hbs))
    ensures Inv(HearAll(m, hbs), heard + DeferredAmong(m, hbs))
    ensures m.incarnation <= m.next ==> HearAll(m, hbs).incarnation <= HearAll(m, hbs).next
    decreases |hbs|
  {
    if hbs == [] {
      assert heard + DeferredAmong(m, hbs) == heard;
    } else {
      DeferredCons(m, hbs);
      HearInv(m, hbs[0], heard);
      var more := DeferredAmong(m, [hbs[0]]);
      HearAllInv(Hear(m, hbs[0]), hbs[1..], heard + more);
      assert heard + more + DeferredAmong(Hear(m, hbs[0]), hbs[1..]) == heard + DeferredAmong(m, hbs);
    }
  }

  lemma HandleInv(m: Member, e: Event, heard: set<Credentials>)
    requires Inv(m, heard) && CanHappen(m, e) && NoneLast(DeferredAt(m, e))
    ensures Inv(Handle(m, e), heard + DeferredAt(m, e))
    ensures m.incarnation <= m.next ==> Handle(m, e).incarnation <= Handle(m, e).next
  {
    match e
    case Received(hb) =>
      assert Defers(m, hb) ==> hb.cred in DeferredAmong(m, [hb]) by {
        assert [hb][0] == hb;
      }
      HearInv(m, hb, heard);
    case TimedOut(unread) =>
      HearAllInv(m, unread, heard);
      HearAllKeeps(m, unread);
  }

  lemma {:induction false} RunInv(m: Member, events: seq<Event>, m': Member, heard: set<Credentials>)
    requires Inv(m, heard) && Run(m, events, m') && NoneLast(Deferred(m, events))
    ensures Inv(m', heard + Deferred(m, events))
    ensures m.incarnation <= m.next ==> m'.incarnation <= m'.next
    decreases |events|
  {
    if events == [] {
      assert heard + {} == heard;
    } else {
      var now, later := DeferredAt(m, events[0]), Deferred(Handle(m, events[0]), events[1..]);
      assert NoneLast(now) && NoneLast(later);
      HandleInv(m, events[0], heard);
      RunInv(Handle(m, events[0]), events[1..], m', heard + now);
      assert heard + now + later == heard + Deferred(m, events);
    }
  }

  /** Over a whole activation: the next incarnation stays above every one the
      member has deferred to, unless the very last incarnation was among them. */
  lemma NextIncarnation(m: Member, events: seq<Event>, m': Member)
    requires Activated(m) && Run(m, events, m')
    ensures NoneLast(Deferred(m, events)) <==> forall c :: c in Deferred(m, events) ==> c.incarnation < m'.next
    ensures NoneLast(Deferred(m, events)) ==> m'.incarnation <= m'.next
    ensures m'.timer <==> !m'.state.Active?
  {
    TimerRuns(m, events, m');
    if NoneLast(Deferred(m, events)) {
      RunInv(m, events, m', {});
      assert {} + Deferred(m, events) == Deferred(m, events);
    }
  }

  /** The timeout timer exists exactly while the member is not active. */
  lemma {:induction false} TimerRuns(m: Member, events: seq<Event>, m': Member)
    requires Run(m, events, m') && (m.timer <==> !m.state.Active?)
    ensures m'.timer <==> !m'.state.Active?
    decreases |events|
  {
    if events != [] {
      if events[0].TimedOut? {
        HearAllKeeps(m, events[0].unread);
      }
      TimerRuns(Handle(m, events[0]), events[1..], m');
    }
  }

  /** In every run an active member outranks everyone of its own weight it has
      deferred to since it last deferred to the last incarnation, if it ever did. */
  lemma ActiveOutranks(m: Member, before: seq<Event>, mid: Member, events: seq<Event>, m': Member, c: Credentials)
    requires Activated(m) && Run(m, before, mid) && Run(mid, events, m') && NoneLast(Deferred(mid, events))
    requires m'.state.Active? && c in Deferred(mid, events) && c.weight == m'.weight
    ensures Better(c, m'.Creds())
  {
    TimerRuns(m, before, mid);
    RunInv(mid, events, m', {});
    assert {} + Deferred(mid, events) == Deferred(mid, events);
  }

  /** With the last incarnation it goes wrong: a member that defers to it starts
      again from 0, and, once active, ranks below what it deferred to. */
  lemma LastIncarnationWraps(m: Member, c: Credentials)
    requires Activated(m) && c.weight == m.weight && c.incarnation == WRAP - 1 && !SameInstance(m.Creds(), c)
    ensures var m1 := Hear(m, Heartbeat(c, m.group)); var m2 := Timeout(m1, []);
      m1.next == 0 && m2.state.Active? && m2.incarnation == 0 && Better(m2.Creds(), c)
  {
    var m1 := Hear(m, Heartbeat(c, m.group));
    HearAllKeeps(m1, []);
  }

  // ----- groups

  /** Members of one group are different instances. */
  ghost predicate DistinctInstances(ms: seq<Member>) {
    forall i, j :: 0 <= i < j < |ms| && ms[i].group == ms[j].group ==> !SameInstance(ms[i].Creds(), ms[j].Creds())
  }

  /** A heartbeat taken in by the member with index `to`. */
  datatype Delivery = Delivery(to: nat, hb: Heartbeat)

  ghost predicate Addressed(ms: seq<Member>, ds: seq<Delivery>) {
    forall k :: 0 <= k < |ds| ==> ds[k].to < |ms|
  }

  /** The members after `ds`, in that order; no timeout fires. */
  ghost function Deliver(ms: seq<Member>, ds: seq<Delivery>): (r: seq<Member>)
    requires Addressed(ms, ds)
    ensures |r| == |ms|
    decreases |ds|
  {
    if ds == [] then ms
    else
      assert forall k :: 0 <= k < |ds[1..]| ==> ds[1..][k] == ds[k + 1];
      Deliver(ms[ds[0].to := Hear(ms[ds[0].to], ds[0].hb)], ds[1..])
  }

  /** What member `j` gets, in order. */
  ghost function Inbox(ds: seq<Delivery>, j: nat): seq<Heartbeat>
    decreases |ds|
  {
    if ds == [] then []
    else if ds[0].to == j then [ds[0].hb] + Inbox(ds[1..], j)
    else Inbox(ds[1..], j)
  }

  /** Members act on their own inboxes only. */
  lemma {:induction false} DeliverLocal(ms: seq<Member>, ds: seq<Delivery>, j: nat)
    requires Addressed(ms, ds) && j < |ms|
    ensures Deliver(ms, ds)[j] == HearAll(ms[j], Inbox(ds, j))
    decreases |ds|
  {
    if ds != [] {
      assert forall k :: 0 <= k < |ds[1..]| ==> ds[1..][k] == ds[k + 1];
      DeliverLocal(ms[ds[0].to := Hear(ms[ds[0].to], ds[0].hb)], ds[1..], j);
      if ds[0].to == j {
        assert ([ds[0].hb] + Inbox(ds[1..], j))[1..] == Inbox(ds[1..], j);
      }
    }
  }

  lemma {:induction false} InInbox(ds: seq<Delivery>, k: nat)
    requires k < |ds|
    ensures ds[k].hb in Inbox(ds, ds[k].to)
    decreases |ds|
  {
    if k > 0 {
      assert ds[1..][k - 1] == ds[k];
      InInbox(ds[1..], k - 1);
    }
  }

  /** Every member has got the current heartbeat of every other member of its group. */
  ghost predicate FullRound(ms: seq<Member>, ds: seq<Delivery>) {
    forall i, j :: 0 <= i < |ms| && 0 <= j < |ms| && i != j && ms[i].group == ms[j].group ==>
      Delivery(j, ms[i].Beat()) in ds
  }

  lemma OutrankedStandsBy(ms: seq<Member>, ds: seq<Delivery>, i: nat, j: nat)
    requires Addressed(ms, ds) && DistinctInstances(ms) && i < |ms| && j < |ms| && i != j
    requires ms[i].group == ms[j].group && Delivery(j, ms[i].Beat()) in ds && Better(ms[j].Creds(), ms[i].Creds())
    ensures Deliver(ms, ds)[j].state.Standby?
  {
    DeliverLocal(ms, ds, j);
    HearAllKeeps(ms[j], Inbox(ds, j));
    var k :| 0 <= k < |ds| && ds[k] == Delivery(j, ms[i].Beat());
    InInbox(ds, k);
    assert Defers(ms[j], ms[i].Beat());
  }

  /** Whatever the members' states were, however the deliveries were ordered and
      whatever else arrived in between: after a full round everyone who is not
      the best of the group is on standby, and at most one member is active. */
  lemma RoundElects(ms: seq<Member>, ds: seq<Delivery>)
    requires Addressed(ms, ds) && DistinctInstances(ms) && FullRound(ms, ds)
    ensures forall i, j :: 0 <= i < |ms| && 0 <= j < |ms| && ms[i].group == ms[j].group ==>
      (Better(ms[j].Creds(), ms[i].Creds()) ==> Deliver(ms, ds)[j].state.Standby?)
    ensures forall i, j :: 0 <= i < j < |ms| && ms[i].group == ms[j].group ==>
      !(Deliver(ms, ds)[i].state.Active? && Deliver(ms, ds)[j].state.Active?)
    ensures forall i, j :: 0 <= i < |ms| && 0 <= j < |ms| && ms[i].group == ms[j].group ==>
      (Lower(Rank(ms[j].Creds()), Rank(ms[i].Creds())) ==> Deliver(ms, ds)[j].state.Standby?)
  {
    hide Better, Lower, Rank;
    forall i, j | 0 <= i < |ms| && 0 <= j < |ms| && ms[i].group == ms[j].group
      ensures Better(ms[j].Creds(), ms[i].Creds()) ==> Deliver(ms, ds)[j].state.Standby?
      ensures Lower(Rank(ms[j].Creds()), Rank(ms[i].Creds())) ==> Deliver(ms, ds)[j].state.Standby?
    {
      BetterIsHigher(ms[j].Creds(), ms[i].Creds());
      if Better(ms[j].Creds(), ms[i].Creds()) {
        TotalOrder(ms[j].Creds(), ms[i].Creds(), ms[i].Creds());
        OutrankedStandsBy(ms, ds, i, j);
      }
    }
    forall i, j | 0 <= i < j < |ms| && ms[i].group == ms[j].group
      ensures !(Deliver(ms, ds)[i].state.Active? && Deliver(ms, ds)[j].state.Active?)
    {
      TotalOrder(ms[i].Creds(), ms[j].Creds(), ms[j].Creds());
    }
  }

  // ----- one active member

  /** Member `b` is active, no other one of its group is, and it ranks above them all. */
  ghost predicate Elected(ms: seq<Member>, b: nat) {
    && b < |ms| && ms[b].state.Active?
    && forall j :: 0 <= j < |ms| && j != b && ms[j].group == ms[b].group ==>
      !ms[j].state.Active? && Better(ms[j].Creds(), ms[b].Creds())
  }

  /** After a full round the best member times out with nothing better unread. Then it
      is the only active one of its group, and it still ranks above the others unless
      its next incarnation had wrapped around to below its last one. */
  lemma TimeoutElects(ms: seq<Member>, ds: seq<Delivery>, b: nat, unread: seq<Heartbeat>)
    requires Addressed(ms, ds) && DistinctInstances(ms) && FullRound(ms, ds) && b < |ms|
    requires forall i :: 0 <= i < |ms| && i != b && ms[i].group == ms[b].group ==> Better(ms[i].Creds(), ms[b].Creds())
    requires DefersToNone(Deliver(ms, ds)[b], unread)
    ensures var r := Deliver(ms, ds); var ms' := r[b := Timeout(r[b], unread)];
      && (forall j :: 0 <= j < |ms| && ms[j].group == ms[b].group ==> (ms'[j].state.Active? <==> j == b))
      && (r[b].state.Active? || ms[b].incarnation <= r[b].next ==> Elected(ms', b))
  {
    hide Better;
    var r := Deliver(ms, ds);
    HearAllKeeps(r[b], unread);
    forall j | 0 <= j < |ms|
      ensures r[j].Creds() == ms[j].Creds() && r[j].group == ms[j].group
    {
      DeliverLocal(ms, ds, j);
      HearAllKeeps(ms[j], Inbox(ds, j));
    }
    forall j | 0 <= j < |ms| && j != b && ms[j].group == ms[b].group
      ensures r[j].state.Standby?
      ensures r[b].state.Active? || ms[b].incarnation <= r[b].next ==>
        Better(ms[j].Creds(), Timeout(r[b], unread).Creds())
    {
      OutrankedStandsBy(ms, ds, b, j);
      RankGrows(ms[j].Creds(), ms[b].Creds(), Timeout(r[b], unread).Creds());
    }
  }

  lemma RankGrows(a: Credentials, b: Credentials, b': Credentials)
    requires Better(a, b) && b' == b.(incarnation := b'.incarnation)
    ensures b.incarnation <= b'.incarnation ==> Better(a, b')
  {
  }

  /** An event at the member with index `who`. */
  datatype GroupEvent = At(who: nat, event: Event)

  function Heard(e: Event): seq<Heartbeat> {
    match e
    case Received(hb) => [hb]
    case TimedOut(unread) => unread
  }

  /** Member `b` meets nothing better, and whenever another one of its group times
      out, a heartbeat of `b` has come in. */
  ghost predicate Undisturbed(ms: seq<Member>, b: nat, e: GroupEvent)
    requires b < |ms|
  {
    && e.who < |ms| && CanHappen(ms[e.who], e.event)
    && (e.who == b ==> DefersToNone(ms[b], Heard(e.event)))
    && (e.who != b && ms[e.who].group == ms[b].group && e.event.TimedOut? ==> ms[b].Beat() in e.event.unread)
  }

  ghost function HandleAt(ms: seq<Member>, e: GroupEvent): (r: seq<Member>)
    requires e.who < |ms|
    ensures |r| == |ms|
  {
    ms[e.who := Handle(ms[e.who], e.event)]
  }

  ghost predicate GroupRun(ms: seq<Member>, b: nat, es: seq<GroupEvent>, ms': seq<Member>)
    requires b < |ms|
    decreases |es|
  {
    if es == [] then ms' == ms else Undisturbed(ms, b, es[0]) && GroupRun(HandleAt(ms, es[0]), b, es[1..], ms')
  }

  lemma StepElected(ms: seq<Member>, b: nat, e: GroupEvent)
    requires Elected(ms, b) && DistinctInstances(ms) && Undisturbed(ms, b, e)
    ensures Elected(HandleAt(ms, e), b) && DistinctInstances(HandleAt(ms, e)) && HandleAt(ms, e)[b] == ms[b]
  {
    hide Better;
    var m := ms[e.who];
    if e.event.TimedOut? {
      HearAllKeeps(m, e.event.unread);
    }
    if e.who == b {
      assert Heard(e.event) == [] || Heard(e.event)[0] in Heard(e.event);
    } else if e.event.TimedOut? && m.group == ms[b].group {
      assert Defers(m, ms[b].Beat());
    }
    assert HandleAt(ms, e)[e.who].Creds() == m.Creds() || m.group != ms[b].group;
  }

  /** For as long as that lasts, over any run of heartbeats and timeouts of all
      members, the elected member stays the only active one of its group. */
  lemma {:induction false} StaysElected(ms: seq<Member>, b: nat, es: seq<GroupEvent>, ms': seq<Member>)
    requires Elected(ms, b) && DistinctInstances(ms) && GroupRun(ms, b, es, ms')
    ensures Elected(ms', b) && ms'[b] == ms[b]
    decreases |es|
  {
    hide DistinctInstances, Better;
    if es != [] {
      StepElected(ms, b, es[0]);
      StaysElected(HandleAt(ms, es[0]), b, es[1..], ms');
    }
  }

  /** When nothing but the group's current heartbeats arrive, the best member keeps its state. */
  lemma BestKeepsState(ms: seq<Member>, ds: seq<Delivery>, b: nat)
    requires Addressed(ms, ds) && b < |ms|
    requires forall k :: 0 <= k < |ds| && ds[k].to == b ==> exists i :: 0 <= i < |ms| && ds[k].hb == ms[i].Beat()
    requires forall i :: 0 <= i < |ms| && ms[i].group == ms[b].group ==> !Better(ms[b].Creds(), ms[i].Creds())
    ensures Deliver(ms, ds)[b] == ms[b]
  {
    DeliverLocal(ms, ds, b);
    HearAllKeeps(ms[b], Inbox(ds, b));
    forall n | 0 <= n < |Inbox(ds, b)|
      ensures !Defers(ms[b], Inbox(ds, b)[n])
    {
      var k := InboxOnly(ds, b, Inbox(ds, b)[n]);
      var i :| 0 <= i < |ms| && ds[k].hb == ms[i].Beat();
    }
  }

  lemma {:induction false} InboxOnly(ds: seq<Delivery>, j: nat, hb: Heartbeat) returns (k: nat)
    requires hb in Inbox(ds, j)
    ensures k < |ds| && ds[k] == Delivery(j, hb)
    decreases |ds|
  {
    if ds[0] == Delivery(j, hb) {
      k := 0;
    } else {
      var k' := InboxOnly(ds[1..], j, hb);
      k := k' + 1;
    }
  }
}
