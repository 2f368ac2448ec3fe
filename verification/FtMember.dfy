/** A member of a fault-tolerance group as ft.c updates it. */
module FtMember {
  import opened FtElection

  /** The counter of better heartbeats that all members of a process share. */
  class FtProcess {
    var foundHeartbeat: nat

    constructor ()
      ensures foundHeartbeat == 0
    {
      foundHeartbeat := 0;
    }
  }

  class FtMember {
    const process: FtProcess
    const group: string
    const weight: U32
    const ip: int
    const pid: int
    var incarnation: U32
    var nextIncarnation: U32
    var state: State
    var timeoutTimer: bool
    /** Heartbeats sent, oldest first. */
    var sent: seq<Heartbeat>

    ghost function View(): Member
      reads this
    {
      Member(group, weight, ip, pid, incarnation, nextIncarnation, state, timeoutTimer)
    }

    /** The timeout timer exists exactly while the member is not active. */
    ghost predicate Armed()
      reads this
    {
      timeoutTimer <==> !state.Active?
    }

    /** Setup and activation. */
    constructor (process: FtProcess, group: string, weight: U32, ip: int, pid: int)
      ensures Activated(View()) && Armed() && sent == []
      ensures View().Creds() == Cred(weight, 0, ip, pid) && this.group == group && this.process == process
    {
      this.process, this.group, this.weight, this.ip, this.pid := process, group, weight, ip, pid;
      incarnation, nextIncarnation, state, sent := 0, 1, Unknown, [];
      timeoutTimer := true;
    }

    method StartTimeoutTimer()
      modifies `timeoutTimer
      ensures timeoutTimer
    {
      if timeoutTimer {
        ResetTimeoutTimer();
      } else {
        timeoutTimer := true;
      }
    }

    method StopTimeoutTimer()
      modifies `timeoutTimer
      ensures !timeoutTimer
    {
      if timeoutTimer {
        timeoutTimer := false;
      }
    }

    /** Restarts the timer, which must exist. */
    method ResetTimeoutTimer()
      requires timeoutTimer
    {
    }

    method SendHeartbeat()
      modifies `sent
      ensures sent == old(sent) + [View().Beat()]
    {
      sent := sent + [Heartbeat(Cred(weight, incarnation, ip, pid), group)];
    }

    method InvokeStateChange(to: State)
      requires Armed()
      modifies this
      ensures Armed() && state == to && nextIncarnation == old(nextIncarnation)
      ensures if to.Active? && !old(state).Active?
              then View() == GoActive(old(View())) && sent == old(sent) + [View().Beat()]
              else incarnation == old(incarnation) && sent == old(sent)
    {
      if state == to {
        return;
      }
      match to {
        case Active =>
          incarnation := nextIncarnation;
          SendHeartbeat();
          StopTimeoutTimer();
        case _ =>
          StartTimeoutTimer();
      }
      state := to;
    }

    method CheckState(to: State)
      requires Armed()
      modifies this
      ensures Armed() && state == to && nextIncarnation == old(nextIncarnation)
      ensures if to.Active? && !old(state).Active?
              then View() == GoActive(old(View())) && sent == old(sent) + [View().Beat()]
              else incarnation == old(incarnation) && sent == old(sent)
    {
      if state != to {
        InvokeStateChange(to);
      }
    }

    method BetterCredentials(other: Credentials) returns (better: bool)
      ensures better <==> Better(View().Creds(), other)
      ensures better <==> Lower(Rank(View().Creds()), Rank(other))
    {
      BetterIsHigher(View().Creds(), other);
      hide Lower, Rank;
      if other.weight > weight {
        return true;
      }
      if other.weight == weight && other.incarnation > incarnation {
        return true;
      }
      if other.weight == weight && other.incarnation == incarnation && other.ip > ip {
        return true;
      }
      if other.weight == weight && other.incarnation == incarnation && other.ip == ip && other.pid > pid {
        return true;
      }
      return false;
    }

    /** A heartbeat has come in. */
    method CheckHeartbeat(hb: Heartbeat)
      requires Armed()
      modifies this, process
      ensures Armed() && View() == Hear(old(View()), hb) && sent == old(sent)
      ensures process.foundHeartbeat == old(process.foundHeartbeat) + if Defers(old(View()), hb) then 1 else 0
    {
      if hb.group != group {
        return;
      }
      if hb.cred.pid == pid && hb.cred.ip == ip {
        return;
      }
      var better := BetterCredentials(hb.cred);
      if better {
        if hb.cred.incarnation >= nextIncarnation {
          nextIncarnation := (hb.cred.incarnation + 1) % WRAP;
        }
        CheckState(Standby);
        ResetTimeoutTimer();
        process.foundHeartbeat := process.foundHeartbeat + 1;
      }
    }

    /** The timeout timer has fired while `unread` heartbeats wait in the socket. */
    method TimeoutCallback(unread: seq<Heartbeat>)
      requires Armed() && timeoutTimer
      modifies this, process
      ensures Armed() && View() == Timeout(old(View()), unread)
      ensures sent == old(sent) + if DefersToNone(old(View()), unread) then [View().Beat()] else []
    {
      process.foundHeartbeat := 0;
      ghost var m := View();
      var k := 0;
      while k < |unread|
        invariant 0 <= k <= |unread| && Armed() && sent == old(sent)
        invariant HearAll(View(), unread[k..]) == HearAll(m, unread)
        invariant View().Creds() == m.Creds() && group == m.group
        invariant process.foundHeartbeat == 0 <==> DefersToNone(m, unread[..k])
        invariant process.foundHeartbeat == 0 ==> View() == m
      {
        assert unread[k..][1..] == unread[k + 1..];
        assert unread[..k + 1] == unread[..k] + [unread[k]];
        assert DefersToNone(m, unread[..k + 1]) <==> DefersToNone(m, unread[..k]) && !Defers(m, unread[k]);
        CheckHeartbeat(unread[k]);
        k := k + 1;
      }
      assert unread[..k] == unread;
      if process.foundHeartbeat == 0 {
        CheckState(Active);
      }
    }
  }
}
