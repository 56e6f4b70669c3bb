/** One session in progress on a worker, with its last-activity timestamp (RemoteControlSession.java). */
module Sessions {

  import opened Proxies

  class RemoteControlSession {
    const sessionId: string
    const remoteControl: RemoteControlProxy
    var lastActiveAt: int

    /** A new session is stamped with the current time. */
    constructor (sessionId: string, remoteControl: RemoteControlProxy, now: int)
      ensures this.sessionId == sessionId && this.remoteControl == remoteControl
      ensures lastActiveAt == now
    {
      this.sessionId := sessionId;
      this.remoteControl := remoteControl;
      lastActiveAt := now;
    }

    /** `updateLastActiveAt()`: the timestamp becomes `now`; id and worker never change. */
    method UpdateLastActiveAt(now: int)
      modifies this`lastActiveAt
      ensures lastActiveAt == now
    {
      lastActiveAt := now;
    }

    /** `innactiveSince(t)`: no activity after `t`; a session last active exactly at `t` qualifies. */
    predicate InnactiveSince(millisecondsSinceEpoch: int)
      reads this
    {
      lastActiveAt <= millisecondsSinceEpoch
    }

    /** `innactiveForMoreThan(ms)` read at clock `now`. */
    predicate InnactiveForMoreThan(milliseconds: int, now: int)
      reads this
    {
      InnactiveSince(now - milliseconds)
    }
  }

  /** Idle since `t` stays true for every later `t'`. */
  lemma InnactiveSinceMonotone(s: RemoteControlSession, t: int, t': int)
    requires s.InnactiveSince(t) && t <= t'
    ensures s.InnactiveSince(t')
  {
  }

  /** The idle test is inclusive: a session exactly `ms` old is idle, one a millisecond younger is not. */
  lemma InnactiveBoundary(s: RemoteControlSession, milliseconds: int, now: int)
    ensures s.lastActiveAt == now - milliseconds ==> s.InnactiveForMoreThan(milliseconds, now)
    ensures s.lastActiveAt == now - milliseconds + 1 ==> !s.InnactiveForMoreThan(milliseconds, now)
    ensures s.InnactiveForMoreThan(milliseconds, now) <==> now - s.lastActiveAt >= milliseconds
  {
  }

  /** Right after a touch at `now`, no positive idle limit is exceeded at that same clock. */
  lemma TouchedIsActive(s: RemoteControlSession, now: int, milliseconds: int)
    requires s.lastActiveAt == now && milliseconds > 0
    ensures !s.InnactiveForMoreThan(milliseconds, now)
  {
  }
}
