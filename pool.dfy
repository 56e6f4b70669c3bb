/**
 * The hub's one worker pool (GlobalRemoteControlPool.java): a provisioner per
 * environment name, and a map from session id to the session running on a worker.
 */
module Pool {

  import opened Faults
  import opened Http
  import opened Proxies
  import opened Sessions
  import opened Provisioning
  import opened Environments

  // ---- the session map, as values ----

  /** The session map without the entries whose worker equals `p` (by host and port). */
  function SessionsOfOthers(m: map<string, RemoteControlSession>, p: RemoteControlProxy)
    : map<string, RemoteControlSession>
  {
    map k | k in m && !SameRemoteControl(m[k].remoteControl, p) :: m[k]
  }

  /** The session map without the entries whose value is the session object `s`. */
  function WithoutSession(m: map<string, RemoteControlSession>, s: RemoteControlSession)
    : map<string, RemoteControlSession>
  {
    map k | k in m && m[k] != s :: m[k]
  }

  /** The session map without the entries whose value is one of `gone`. */
  function WithoutSessions(m: map<string, RemoteControlSession>, gone: set<RemoteControlSession>)
    : map<string, RemoteControlSession>
  {
    map k | k in m && m[k] !in gone :: m[k]
  }

  /** Purging the sessions of `p` keeps exactly the entries on other workers, unchanged. */
  lemma SessionsOfOthersExact(m: map<string, RemoteControlSession>, p: RemoteControlProxy)
    ensures forall k :: k in SessionsOfOthers(m, p) <==> k in m && !SameRemoteControl(m[k].remoteControl, p)
    ensures forall k :: k in SessionsOfOthers(m, p) ==> SessionsOfOthers(m, p)[k] == m[k]
    ensures SessionsOfOthers(SessionsOfOthers(m, p), p) == SessionsOfOthers(m, p)
  {
  }

  /** Removing the session objects that run on `p` is the same as purging `p`'s sessions. */
  lemma WithoutSessionsOfWorker(m: map<string, RemoteControlSession>, p: RemoteControlProxy,
                                gone: set<RemoteControlSession>)
    requires gone == set k | k in m && SameRemoteControl(m[k].remoteControl, p) :: m[k]
    ensures WithoutSessions(m, gone) == SessionsOfOthers(m, p)
  {
    forall k | k in m
      ensures m[k] in gone <==> SameRemoteControl(m[k].remoteControl, p)
    {
      if m[k] in gone {
        var k' :| k' in m && SameRemoteControl(m[k'].remoteControl, p) && m[k'] == m[k];
      }
    }
  }

  /** The ids of the sessions idle for at least `milliseconds` at time `now`. */
  function IdleKeys(m: map<string, RemoteControlSession>, milliseconds: int, now: int): (r: set<string>)
    reads m.Values
    ensures forall k :: k in r <==> k in m && now - m[k].lastActiveAt >= milliseconds
  {
    set k | k in m && m[k].InnactiveForMoreThan(milliseconds, now)
  }

  /** Once no key is left to visit, the keys recycled are all the idle ones. */
  lemma AllVisited(idle: set<string>, left: set<string>, recycled: set<string>)
    requires left == {} && recycled <= idle && idle - left <= recycled
    ensures recycled == idle
  {
  }

  /** Dropping one more key from a map with keys already dropped. */
  lemma MinusOneMore(m: map<string, RemoteControlSession>, gone: set<string>, k: string)
    ensures (m - gone) - {k} == m - (gone + {k})
  {
  }

  // ---- the health sweep, as values ----

  /** The list without the proxy objects in `dead`, in the original order. */
  function Kept(s: seq<RemoteControlProxy>, dead: set<RemoteControlProxy>): (r: seq<RemoteControlProxy>)
    ensures |r| <= |s|
  {
    if s == [] then [] else (if s[0] in dead then [] else [s[0]]) + Kept(s[1..], dead)
  }

  /** The session map without the sessions of workers equal to one in `dead`. */
  function Purged(m: map<string, RemoteControlSession>, dead: set<RemoteControlProxy>)
    : map<string, RemoteControlSession>
  {
    map k | k in m && (forall d :: d in dead ==> !SameRemoteControl(m[k].remoteControl, d)) :: m[k]
  }

  /** With nobody dead, the whole list is kept. */
  lemma {:induction false} KeptNone(s: seq<RemoteControlProxy>)
    ensures Kept(s, {}) == s
  {
    if s != [] {
      KeptNone(s[1..]);
      assert s == [s[0]] + s[1..];
    }
  }

  /** A proxy is kept exactly when it is in the list and not dead. */
  lemma {:induction false} KeptMember(s: seq<RemoteControlProxy>, dead: set<RemoteControlProxy>, q: RemoteControlProxy)
    ensures q in Kept(s, dead) <==> q in s && q !in dead
  {
    if s != [] {
      KeptMember(s[1..], dead, q);
      assert s == [s[0]] + s[1..];
    }
  }

  /** Declaring dead a proxy that is not in the list leaves the list as it is. */
  lemma {:induction false} KeptAbsent(s: seq<RemoteControlProxy>, dead: set<RemoteControlProxy>, q: RemoteControlProxy)
    requires q !in s
    ensures Kept(s, dead + {q}) == Kept(s, dead)
  {
    if s != [] {
      KeptAbsent(s[1..], dead, q);
    }
  }

  lemma RemoveFirstEqualHead(x: RemoteControlProxy, rest: seq<RemoteControlProxy>)
    ensures RemoveFirstEqual([x] + rest, x) == rest
  {
    assert IndexOf([x] + rest, x) == 0;
    assert RemoveAt([x] + rest, 0) == ([x] + rest)[1..];
  }

  lemma RemoveFirstEqualPast(x: RemoteControlProxy, rest: seq<RemoteControlProxy>, q: RemoteControlProxy)
    requires !SameRemoteControl(x, q)
    ensures RemoveFirstEqual([x] + rest, q) == [x] + RemoveFirstEqual(rest, q)
  {
    assert ([x] + rest)[1..] == rest;
    var k := IndexOf(rest, q);
    if k >= 0 {
      assert RemoveAt([x] + rest, k + 1) == [x] + RemoveAt(rest, k);
    }
  }

  lemma NoDupIdsTail(s: seq<RemoteControlProxy>)
    requires NoDupIds(s) && s != []
    ensures NoDupIds(s[1..])
    ensures forall j :: 0 <= j < |s[1..]| ==> !SameRemoteControl(s[0], s[1..][j])
  {
    forall i, j | 0 <= i < j < |s[1..]| ensures !SameRemoteControl(s[1..][i], s[1..][j]) {
      assert s[1..][i] == s[i + 1] && s[1..][j] == s[j + 1];
    }
    forall j | 0 <= j < |s[1..]| ensures !SameRemoteControl(s[0], s[1..][j]) {
      assert s[1..][j] == s[j + 1];
    }
  }

  /**
   * In a list of distinct workers, declaring one more member dead is the list's
   * `remove` of that member: the first equal element, which is the member itself.
   */
  lemma {:induction false} KeptOneMore(s: seq<RemoteControlProxy>, dead: set<RemoteControlProxy>, q: RemoteControlProxy)
    requires NoDupIds(s) && q in s && q !in dead
    ensures Kept(s, dead + {q}) == RemoveFirstEqual(Kept(s, dead), q)
  {
    NoDupIdsTail(s);
    var rest := Kept(s[1..], dead);
    var rest' := Kept(s[1..], dead + {q});
    if s[0] == q {
      assert q !in s[1..];
      KeptAbsent(s[1..], dead, q);
      assert Kept(s, dead + {q}) == rest';
      assert Kept(s, dead) == [q] + rest;
      RemoveFirstEqualHead(q, rest);
    } else {
      assert q in s[1..];
      assert !SameRemoteControl(s[0], q);
      KeptOneMore(s[1..], dead, q);
      if s[0] in dead {
        assert Kept(s, dead + {q}) == rest';
        assert Kept(s, dead) == rest;
      } else {
        assert Kept(s, dead + {q}) == [s[0]] + rest';
        assert Kept(s, dead) == [s[0]] + rest;
        RemoveFirstEqualPast(s[0], rest, q);
      }
    }
  }

  /** The proxies of `s` whose heartbeat check fails in the standing `view` gives them. */
  function Unreliables(s: seq<RemoteControlProxy>, view: View, heartbeat: Heartbeat): set<RemoteControlProxy>
    decreases |s|
  {
    if s == [] then {}
    else
      var last := s[|s| - 1];
      Unreliables(s[..|s| - 1], view, heartbeat) + (if Unhealthy(view, last, heartbeat) then {last} else {})
  }

  lemma {:induction false} UnreliablesMember(s: seq<RemoteControlProxy>, view: View, heartbeat: Heartbeat, q: RemoteControlProxy)
    ensures q in Unreliables(s, view, heartbeat) <==> q in s && Unhealthy(view, q, heartbeat)
    decreases |s|
  {
    if s != [] {
      UnreliablesMember(s[..|s| - 1], view, heartbeat, q);
      assert s == s[..|s| - 1] + [s[|s| - 1]];
    }
  }

  lemma UnreliablesStep(s: seq<RemoteControlProxy>, i: nat, view: View, heartbeat: Heartbeat)
    requires i < |s|
    ensures Unreliables(s[..i + 1], view, heartbeat) ==
            Unreliables(s[..i], view, heartbeat) + (if Unhealthy(view, s[i], heartbeat) then {s[i]} else {})
  {
    assert s[..i + 1][..i] == s[..i];
  }

  /** Purging one more worker's sessions is the same as declaring it dead too. */
  lemma PurgedOneMore(m: map<string, RemoteControlSession>, dead: set<RemoteControlProxy>, rc: RemoteControlProxy)
    ensures SessionsOfOthers(Purged(m, dead), rc) == Purged(m, dead + {rc})
  {
  }

  predicate Home(s: seq<RemoteControlProxy>, e: string) {
    forall q :: q in s ==> q.environment == e
  }

  class GlobalRemoteControlPool {
    var sessions: map<string, RemoteControlSession>
    var provisioners: map<string, RemoteControlProvisioner>

    /**
     * Each provisioner's list names distinct workers, no two environments share a
     * provisioner, every proxy sits in the provisioner of its own environment, and
     * every session is filed under its own id.
     */
    predicate Valid()
      reads this, provisioners.Values
    {
      && (forall e :: e in provisioners ==> provisioners[e].Valid() && Home(provisioners[e].remoteControls, e))
      && (forall e, e' :: e in provisioners && e' in provisioners && e != e' ==> provisioners[e] != provisioners[e'])
      && (forall id :: id in sessions ==> sessions[id].sessionId == id)
    }

    constructor ()
      ensures Valid() && sessions == map[] && provisioners == map[]
    {
      sessions := map[];
      provisioners := map[];
    }

    /** Some provisioner holds a proxy equal to `p`. */
    predicate Registered(p: RemoteControlProxy)
      reads this, provisioners.Values
    {
      exists e :: e in provisioners && provisioners[e].Contains(p)
    }

    /** `isRegistered(p)`: asks every provisioner, in the map's (unspecified) order. */
    method IsRegistered(p: RemoteControlProxy) returns (b: bool)
      ensures b <==> Registered(p)
    {
      var left := provisioners.Keys;
      while left != {}
        invariant left <= provisioners.Keys
        invariant forall e :: e in provisioners.Keys - left ==> !provisioners[e].Contains(p)
        decreases |left|
      {
        var e :| e in left;
        if provisioners[e].Contains(p) {
          return true;
        }
        left := left - {e};
      }
      return false;
    }

    /**
     * `register(p)`: the environment gets a provisioner if it had none, and `p` is
     * added to it, replacing a stale proxy for the same worker. Nothing else changes.
     */
    method Register(p: RemoteControlProxy)
      requires Valid()
      modifies this`provisioners
      modifies if p.environment in provisioners then {provisioners[p.environment]} else {}
      ensures Valid() && Registered(p)
      ensures provisioners.Keys == old(provisioners.Keys) + {p.environment}
      ensures forall e :: e in old(provisioners) ==> provisioners[e] == old(provisioners[e])
      ensures forall e :: e in provisioners && e != p.environment ==>
                provisioners[e].remoteControls == old(provisioners[e].remoteControls)
      ensures p.environment in old(provisioners) ==>
                provisioners[p.environment].remoteControls ==
                RemoveFirstEqual(old(provisioners[p.environment].remoteControls), p) + [p]
      ensures p.environment !in old(provisioners) ==> provisioners[p.environment].remoteControls == [p]
    {
      ProvideProvisioner(p.environment);
      var provisioner := provisioners[p.environment];
      AddKeepsHome(provisioner.remoteControls, p);
      provisioner.Add(p);
      assert provisioner.remoteControls[|provisioner.remoteControls| - 1] == p;
      assert provisioner.Contains(p);
    }

    /** `putIfAbsent(environment, new RemoteControlProvisioner())` on the provisioner map. */
    method ProvideProvisioner(environment: string)
      requires Valid()
      modifies this`provisioners
      ensures Valid()
      ensures provisioners.Keys == old(provisioners.Keys) + {environment}
      ensures forall e :: e in old(provisioners) ==> provisioners[e] == old(provisioners[e])
      ensures environment !in old(provisioners) ==>
                fresh(provisioners[environment]) && provisioners[environment].remoteControls == []
    {
      if environment !in provisioners {
        var created := new RemoteControlProvisioner();
        provisioners := provisioners[environment := created];
      }
    }

    /**
     * `reserve(environment)`: the provisioner's reservation; an environment with
     * no provisioner throws NoSuchEnvironmentException.
     */
    method Reserve(environment: Environment, heartbeat: Heartbeat) returns (r: Result<Option<RemoteControlProxy>>)
      requires Valid()
      modifies if environment.name in provisioners then {provisioners[environment.name]} else {}
      modifies if environment.name in provisioners then provisioners[environment.name].remoteControls else []
      ensures Valid()
      ensures environment.name !in provisioners <==> r == Err(NoSuchEnvironment(environment.name))
      ensures environment.name in provisioners ==>
                var s := old(provisioners[environment.name].remoteControls);
                && r.Ok? && Planned(s, old(SnapshotOf(s)), heartbeat, r.value, provisioners[environment.name].remoteControls)
      ensures r.Ok? && r.value.Some? ==>
                && r.value.value.sessionInProgress && !old(r.value.value.sessionInProgress)
                && r.value.value.failedHeartbeatCount == 0
      ensures r.Ok? && r.value.Some? ==>
                && r.value.value.environment == environment.name
                && r.value.value in old(provisioners[environment.name].remoteControls)
      ensures r.Ok? && environment.name in provisioners ==>
                var s := old(provisioners[environment.name].remoteControls);
                && FlagsKept(s, old(SnapshotOf(s)), r.value)
                && CountsKept(provisioners[environment.name].remoteControls, old(SnapshotOf(s)), r.value)
    {
      if environment.name !in provisioners {
        return Err(NoSuchEnvironment(environment.name));
      }
      var provisioner := provisioners[environment.name];
      var reserved := provisioner.Reserve(heartbeat);
      return Ok(reserved);
    }

    /**
     * `associateWithSession(p, id)`: files a new session for `p` under `id`, stamped
     * `now`; an id already in use throws IllegalStateException and the map is left alone.
     * The worker is not required to be registered.
     */
    method AssociateWithSession(remoteControl: RemoteControlProxy, sessionId: string, now: int) returns (o: Outcome)
      requires Valid()
      modifies this`sessions
      ensures Valid()
      ensures sessionId in old(sessions) <==> o.Fail?
      ensures o.Fail? ==>
                && sessions == old(sessions)
                && o == Fail(IllegalState("Session '" + sessionId + "' is already asssociated with "))
      ensures o.Pass? ==>
                && sessions.Keys == old(sessions.Keys) + {sessionId}
                && (forall k :: k in old(sessions) ==> sessions[k] == old(sessions[k]))
                && fresh(sessions[sessionId]) && sessions[sessionId].lastActiveAt == now
                && Retrieve(sessionId) == Ok(remoteControl)
    {
      if sessionId in sessions {
        return Fail(IllegalState("Session '" + sessionId + "' is already asssociated with "));
      }
      var session := new RemoteControlSession(sessionId, remoteControl, now);
      sessions := sessions[sessionId := session];
      return Pass;
    }

    /** `retrieve(id)`: the worker of the session filed under `id`; NoSuchSessionException if none. */
    function Retrieve(sessionId: string): (r: Result<RemoteControlProxy>)
      reads this
      ensures r.Ok? <==> sessionId in sessions
      ensures r.Ok? ==> r.value == sessions[sessionId].remoteControl
      ensures r.Err? ==> r.fault == NoSuchSession(Some(sessionId))
    {
      if sessionId in sessions then Ok(sessions[sessionId].remoteControl)
      else Err(NoSuchSession(Some(sessionId)))
    }

    /**
     * `release(p)`: the provisioner of `p`'s environment releases it. With no such
     * provisioner the lookup yields null and the call throws NullPointerException.
     */
    method Release(remoteControl: RemoteControlProxy) returns (o: Outcome)
      modifies remoteControl`sessionInProgress
      ensures remoteControl.environment !in provisioners ==>
                o == Fail(NullPointer) && remoteControl.sessionInProgress == old(remoteControl.sessionInProgress)
      ensures remoteControl.environment in provisioners ==>
                !remoteControl.sessionInProgress && (o == Pass <==> old(remoteControl.sessionInProgress))
      ensures remoteControl.environment in provisioners && !old(remoteControl.sessionInProgress) ==>
                o == Fail(IllegalState("Unregistering session on an idle remote control : " + old(remoteControl.Description())))
    {
      if remoteControl.environment !in provisioners {
        return Fail(NullPointer);
      }
      o := provisioners[remoteControl.environment].Release(remoteControl);
    }

    /**
     * `releaseForSession(id)`: the session is dropped from the map, the worker is told
     * to end it, and the worker is released. An unknown id throws before anything
     * changes. Telling the worker re-forwards the request it last held; one that never
     * held a request (only the WebDriver commands set it) throws NullPointerException
     * there, after the session has been dropped and before the release, and so does a
     * missing provisioner. An IOException from the worker is swallowed.
     */
    method ReleaseForSession(sessionId: string) returns (o: Outcome)
      requires Valid()
      modifies this`sessions
      modifies (if sessionId in sessions then {sessions[sessionId].remoteControl} else {})`sessionInProgress
      ensures Valid()
      ensures sessionId !in old(sessions) ==> o == Fail(NoSuchSession(Some(sessionId))) && sessions == old(sessions)
      ensures sessionId in old(sessions) ==>
                var rc := old(sessions[sessionId].remoteControl);
                && sessions == old(sessions) - {sessionId}
                && (rc.request.None? || rc.environment !in provisioners ==>
                      o == Fail(NullPointer) && rc.sessionInProgress == old(rc.sessionInProgress))
                && (rc.request.Some? && rc.environment in provisioners ==>
                      !rc.sessionInProgress && (o == Pass <==> old(rc.sessionInProgress)))
                && (rc.request.Some? && rc.environment in provisioners && !old(rc.sessionInProgress) ==>
                      o == Fail(IllegalState("Unregistering session on an idle remote control : " + old(rc.Description()))))
    {
      var found := Retrieve(sessionId);
      if found.Err? {
        return Fail(found.fault);
      }
      var remoteControl := found.value;
      sessions := sessions - {sessionId};
      if remoteControl.request.None? {
        return Fail(NullPointer);
      }
      o := Release(remoteControl);
    }

    /** `updateSessionLastActiveAt(id)`: the session's clock is set to `now`; a missing id is a NullPointerException. */
    method UpdateSessionLastActiveAt(sessionId: string, now: int) returns (o: Outcome)
      modifies if sessionId in sessions then {sessions[sessionId]} else {}
      ensures sessionId in sessions <==> o == Pass
      ensures o.Fail? ==> o == Fail(NullPointer)
      ensures o.Pass? ==>
                && sessions[sessionId].lastActiveAt == now
                && !sessions[sessionId].InnactiveForMoreThan(1, now)
    {
      if sessionId !in sessions {
        return Fail(NullPointer);
      }
      sessions[sessionId].UpdateLastActiveAt(now);
      return Pass;
    }

    /** `removeFromSessionMap(s)`: every entry whose value is the object `s` goes. */
    method RemoveFromSessionMap(session: RemoteControlSession)
      modifies this`sessions
      ensures sessions == WithoutSession(old(sessions), session)
    {
      var left := sessions.Keys;
      ghost var start := sessions;
      while left != {}
        invariant left <= start.Keys
        invariant sessions == map k | k in start && (k in left || start[k] != session) :: start[k]
        decreases |left|
      {
        var k :| k in left;
        if sessions[k] == session {
          sessions := sessions - {k};
        }
        left := left - {k};
      }
    }

    /**
     * `unregister(p)`: `p` is removed from its environment's provisioner and, when it
     * was there, every session on a worker equal to `p` is dropped. With no provisioner
     * for the environment the lookup yields null and the call throws NullPointerException.
     */
    method Unregister(remoteControl: RemoteControlProxy) returns (r: Result<bool>)
      requires Valid()
      modifies this`sessions
      modifies if remoteControl.environment in provisioners then {provisioners[remoteControl.environment]} else {}
      ensures Valid()
      ensures remoteControl.environment !in provisioners ==> r == Err(NullPointer)
      ensures remoteControl.environment in provisioners ==>
                && r.Ok?
                && (r.value <==> old(provisioners[remoteControl.environment].Contains(remoteControl)))
                && provisioners[remoteControl.environment].remoteControls ==
                   RemoveFirstEqual(old(provisioners[remoteControl.environment].remoteControls), remoteControl)
      ensures r == Ok(true) ==> sessions == SessionsOfOthers(old(sessions), remoteControl)
      ensures r != Ok(true) ==> sessions == old(sessions)
    {
      if remoteControl.environment !in provisioners {
        return Err(NullPointer);
      }
      var provisioner := provisioners[remoteControl.environment];
      RemoveFirstEqualDropsOnly(provisioner.remoteControls, remoteControl);
      var unregistered := provisioner.Remove(remoteControl);
      assert Home(provisioner.remoteControls, remoteControl.environment);
      if unregistered {
        PurgeSessionsOf(remoteControl);
      }
      return Ok(unregistered);
    }

    /**
     * The two loops of `unregister(p)`: collect the sessions on workers equal to `p`,
     * then take each of them out of the map.
     */
    method PurgeSessionsOf(remoteControl: RemoteControlProxy)
      modifies this`sessions
      ensures sessions == SessionsOfOthers(old(sessions), remoteControl)
      ensures forall k :: k in sessions ==> k in old(sessions) && sessions[k] == old(sessions[k])
    {
      var gone := CollectSessionsOf(remoteControl);
      ghost var start := sessions;
      var left := gone;
      while left != {}
        invariant left <= gone
        invariant sessions == WithoutSessions(start, gone - left)
        decreases |left|
      {
        var session :| session in left;
        RemoveFromSessionMap(session);
        WithoutOneMore(start, gone - left, session);
        assert gone - (left - {session}) == (gone - left) + {session};
        left := left - {session};
      }
      assert gone - left == gone;
      WithoutSessionsOfWorker(start, remoteControl, gone);
    }

    /** The first loop of `unregister(p)`: the set of sessions whose worker equals `p`. */
    method CollectSessionsOf(remoteControl: RemoteControlProxy) returns (gone: set<RemoteControlSession>)
      ensures gone == set k | k in sessions && SameRemoteControl(sessions[k].remoteControl, remoteControl) :: sessions[k]
    {
      gone := {};
      var left := sessions.Keys;
      while left != {}
        invariant left <= sessions.Keys
        invariant gone == set k | k in sessions.Keys - left &&
                                  SameRemoteControl(sessions[k].remoteControl, remoteControl) :: sessions[k]
        decreases |left|
      {
        var k :| k in left;
        if SameRemoteControl(sessions[k].remoteControl, remoteControl) {
          gone := gone + {sessions[k]};
        }
        left := left - {k};
      }
    }

    /** `iteratorSafeRemoteControlSessions()`: a copy of the sessions in the map. */
    method IteratorSafeRemoteControlSessions() returns (copy: set<RemoteControlSession>)
      ensures copy == sessions.Values
    {
      copy := {};
      var left := sessions.Keys;
      while left != {}
        invariant left <= sessions.Keys
        invariant copy == set k | k in sessions.Keys - left :: sessions[k]
        decreases |left|
      {
        var k :| k in left;
        copy := copy + {sessions[k]};
        left := left - {k};
      }
    }

    /** `p` itself (not just a proxy equal to it) sits in the list of its own environment. */
    predicate Enrolled(p: RemoteControlProxy)
      reads this, provisioners.Values
    {
      p.environment in provisioners && p in provisioners[p.environment].remoteControls
    }

    /** Every proxy object held by some provisioner. */
    function Registry(): set<RemoteControlProxy>
      reads this, provisioners.Values
    {
      set e, q | e in provisioners && q in provisioners[e].remoteControls :: q
    }

    /** Since each proxy sits in its own environment's list, the registry is the enrolled proxies. */
    lemma RegistryIsEnrolled(p: RemoteControlProxy)
      requires Valid()
      ensures p in Registry() <==> Enrolled(p)
    {
      if p in Registry() {
        var e :| e in provisioners && p in provisioners[e].remoteControls;
        assert Home(provisioners[e].remoteControls, e);
      }
    }

    /**
     * `allRegisteredRemoteControls()`: the provisioners' lists, one after the other in
     * the map's (unspecified) order; each registered proxy object appears exactly once.
     */
    method AllRegisteredRemoteControls() returns (r: seq<RemoteControlProxy>)
      requires Valid()
      ensures forall q :: q in r <==> Enrolled(q)
      ensures forall i, j :: 0 <= i < j < |r| ==> r[i] != r[j]
    {
      r := [];
      var left := provisioners.Keys;
      while left != {}
        invariant left <= provisioners.Keys
        invariant forall q :: q in r <==> q.environment !in left && Enrolled(q)
        invariant forall i, j :: 0 <= i < j < |r| ==> r[i] != r[j]
        decreases |left|
      {
        var e :| e in left;
        var more := provisioners[e].AllRemoteControls();
        assert Home(more, e);
        forall i, j | 0 <= i < j < |r + more| ensures (r + more)[i] != (r + more)[j] {
          if j >= |r| && i < |r| {
            assert (r + more)[i] in r && (r + more)[j] in more;
          } else if i >= |r| {
            assert (r + more)[i] == more[i - |r|] && (r + more)[j] == more[j - |r|];
          }
        }
        r := r + more;
        left := left - {e};
      }
    }

    /**
     * `unregisterRemoteControlIfUnreliable(rc)`: a registered worker that fails its
     * heartbeat check is unregistered. The ghost result is the check's verdict.
     */
    method UnregisterRemoteControlIfUnreliable(remoteControl: RemoteControlProxy, heartbeat: Heartbeat)
      returns (ghost gone: bool)
      requires Valid() && Enrolled(remoteControl)
      modifies this`sessions, provisioners[remoteControl.environment], remoteControl`failedHeartbeatCount
      ensures Valid()
      ensures gone == Unresponsive(heartbeat, remoteControl.PingURL(), remoteControl.sessionInProgress,
                                   old(remoteControl.failedHeartbeatCount))
      ensures remoteControl.failedHeartbeatCount == 0
      ensures gone ==>
                && provisioners[remoteControl.environment].remoteControls ==
                   RemoveFirstEqual(old(provisioners[remoteControl.environment].remoteControls), remoteControl)
                && sessions == SessionsOfOthers(old(sessions), remoteControl)
      ensures !gone ==>
                && provisioners[remoteControl.environment].remoteControls ==
                   old(provisioners[remoteControl.environment].remoteControls)
                && sessions == old(sessions)
    {
      var unreliable := remoteControl.Unreliable(heartbeat);
      gone := unreliable;
      if unreliable {
        var provisioner := provisioners[remoteControl.environment];
        assert provisioner.Contains(remoteControl) by {
          var i :| 0 <= i < |provisioner.remoteControls| && provisioner.remoteControls[i] == remoteControl;
          assert SameRemoteControl(provisioner.remoteControls[i], remoteControl);
        }
        var unregistered := Unregister(remoteControl);
      }
    }

    /**
     * `unregisterAllUnresponsiveRemoteControls()`: every registered worker gets its
     * heartbeat check, and those that fail it are unregistered. The ghost result is
     * the set of workers found dead: exactly the registered ones whose check, from
     * their state at the start, fails. Each list keeps its surviving workers in order
     * and the session map loses exactly the sessions of the dead workers.
     */
    method UnregisterAllUnresponsiveRemoteControls(heartbeat: Heartbeat) returns (ghost dead: set<RemoteControlProxy>)
      requires Valid()
      modifies this`sessions, provisioners.Values, Registry()`failedHeartbeatCount
      ensures Valid()
      ensures forall q :: q in dead <==>
                q in old(Registry()) && Unresponsive(heartbeat, q.PingURL(), q.sessionInProgress, old(q.failedHeartbeatCount))
      ensures forall e :: e in old(provisioners) ==> provisioners[e].remoteControls == Kept(old(provisioners[e].remoteControls), dead)
      ensures sessions == Purged(old(sessions), dead)
      ensures forall q :: q in old(Registry()) ==> q.failedHeartbeatCount == 0
    {
      var all := AllRegisteredRemoteControls();
      assert Registry() == old(Registry());
      forall q ensures q in all <==> q in Registry() {
        RegistryIsEnrolled(q);
      }
      ghost var view := Snapshot(all);
      dead := UnregisterEachIfUnreliable(all, heartbeat, view);
      forall q ensures q in dead <==> q in all && Unhealthy(view, q, heartbeat) {
        UnreliablesMember(all, view, heartbeat, q);
      }
    }

    /** A view of the standings of the proxies of `all`, taken now. */
    lemma Snapshot(all: seq<RemoteControlProxy>) returns (view: View)
      ensures forall j :: 0 <= j < |all| ==> StandingOf(all[j]) == StandingIn(view, all[j])
      ensures forall q :: q in all ==> StandingIn(view, q) == Standing(q.sessionInProgress, q.failedHeartbeatCount)
    {
      view := SnapshotOf(all);
    }

    /** The loop of the sweep: each proxy of `all` in turn, unregistered if it fails its check. */
    method UnregisterEachIfUnreliable(all: seq<RemoteControlProxy>, heartbeat: Heartbeat, ghost view: View)
      returns (ghost dead: set<RemoteControlProxy>)
      requires Valid()
      requires forall j :: 0 <= j < |all| ==> Enrolled(all[j])
      requires forall i, j :: 0 <= i < j < |all| ==> all[i] != all[j]
      requires forall j :: 0 <= j < |all| ==> StandingOf(all[j]) == StandingIn(view, all[j])
      modifies this`sessions, provisioners.Values, all`failedHeartbeatCount
      ensures Valid()
      ensures dead == Unreliables(all, view, heartbeat)
      ensures forall j :: 0 <= j < |all| ==> all[j].failedHeartbeatCount == 0
      ensures forall e :: e in old(provisioners) ==> provisioners[e].remoteControls == Kept(old(provisioners[e].remoteControls), dead)
      ensures sessions == Purged(old(sessions), dead)
    {
      ghost var start := sessions;
      ghost var lists := SweepStarts(all, heartbeat, view);
      dead := SweepAll(all, heartbeat, view, lists, start);
      SweepEnds(all, heartbeat, view, lists, start, dead);
    }

    /** The loop itself: `all[0]`, `all[1]`, ... each visited once, in order. */
    method SweepAll(all: seq<RemoteControlProxy>, heartbeat: Heartbeat, ghost view: View,
                    ghost lists: map<string, seq<RemoteControlProxy>>, ghost start: map<string, RemoteControlSession>)
      returns (ghost dead: set<RemoteControlProxy>)
      requires Progress(all, heartbeat, view, lists, start, {}, 0)
      requires forall j, k :: 0 <= j < k < |all| ==> all[j] != all[k]
      requires forall j :: 0 <= j < |all| ==> all[j].environment in lists && all[j] in lists[all[j].environment]
      modifies this`sessions, provisioners.Values, all`failedHeartbeatCount
      ensures Progress(all, heartbeat, view, lists, start, dead, |all|)
    {
      dead := {};
      var i := 0;
      while i < |all|
        invariant i <= |all|
        invariant Progress(all, heartbeat, view, lists, start, dead, i)
      {
        dead := SweepStep(all, i, heartbeat, view, lists, start, dead);
        i := i + 1;
      }
    }

    /**
     * The lists are the lists `lists` at the start of the sweep without the workers
     * in `dead`, and the session map is `start` without those workers' sessions.
     */
    ghost predicate Swept(lists: map<string, seq<RemoteControlProxy>>, start: map<string, RemoteControlSession>,
                          dead: set<RemoteControlProxy>)
      reads this, provisioners.Values
    {
      && lists.Keys == provisioners.Keys
      && (forall e :: e in lists ==> NoDupIds(lists[e]) && Home(lists[e], e))
      && (forall e :: e in provisioners ==> provisioners[e].remoteControls == Kept(lists[e], dead))
      && sessions == Purged(start, dead)
    }

    /**
     * The sweep has visited the first `i` proxies of `all`: `dead` holds those whose
     * check failed, the visited ones have a zero count, the others still stand as in `view`.
     */
    ghost predicate Progress(all: seq<RemoteControlProxy>, heartbeat: Heartbeat, view: View,
                             lists: map<string, seq<RemoteControlProxy>>, start: map<string, RemoteControlSession>,
                             dead: set<RemoteControlProxy>, i: int)
      reads this, provisioners.Values, all
    {
      && 0 <= i <= |all|
      && Valid() && Swept(lists, start, dead)
      && dead == Unreliables(all[..i], view, heartbeat)
      && (forall j :: i <= j < |all| ==> StandingOf(all[j]) == StandingIn(view, all[j]))
      && (forall j :: 0 <= j < i ==> all[j].failedHeartbeatCount == 0)
    }

    /** Before the sweep, every list is the list it starts from and nobody is dead. */
    lemma SweepStarts(all: seq<RemoteControlProxy>, heartbeat: Heartbeat, view: View)
      returns (lists: map<string, seq<RemoteControlProxy>>)
      requires Valid()
      requires forall j :: 0 <= j < |all| ==> Enrolled(all[j])
      requires forall j :: 0 <= j < |all| ==> StandingOf(all[j]) == StandingIn(view, all[j])
      ensures forall e :: e in provisioners ==> e in lists && lists[e] == provisioners[e].remoteControls
      ensures forall j :: 0 <= j < |all| ==> all[j].environment in lists && all[j] in lists[all[j].environment]
      ensures Progress(all, heartbeat, view, lists, sessions, {}, 0)
    {
      lists := map e | e in provisioners :: provisioners[e].remoteControls;
      forall e | e in lists ensures Kept(lists[e], {}) == lists[e] {
        KeptNone(lists[e]);
      }
    }

    /** After the last proxy, the sweep has judged all of them. */
    lemma SweepEnds(all: seq<RemoteControlProxy>, heartbeat: Heartbeat, view: View,
                    lists: map<string, seq<RemoteControlProxy>>, start: map<string, RemoteControlSession>,
                    dead: set<RemoteControlProxy>)
      requires Progress(all, heartbeat, view, lists, start, dead, |all|)
      ensures dead == Unreliables(all, view, heartbeat)
      ensures forall j :: 0 <= j < |all| ==> all[j].failedHeartbeatCount == 0
      ensures Valid()
      ensures forall e :: e in provisioners ==> provisioners[e].remoteControls == Kept(lists[e], dead)
      ensures sessions == Purged(start, dead)
    {
      assert all[..|all|] == all;
    }

    /** The sweep's visit of `all[i]`. */
    method SweepStep(all: seq<RemoteControlProxy>, i: int, heartbeat: Heartbeat, ghost view: View,
                     ghost lists: map<string, seq<RemoteControlProxy>>, ghost start: map<string, RemoteControlSession>,
                     ghost dead: set<RemoteControlProxy>)
      returns (ghost dead': set<RemoteControlProxy>)
      requires Progress(all, heartbeat, view, lists, start, dead, i) && i < |all|
      requires forall j, k :: 0 <= j < k < |all| ==> all[j] != all[k]
      requires forall j :: 0 <= j < |all| ==> all[j].environment in lists && all[j] in lists[all[j].environment]
      modifies this`sessions, provisioners[all[i].environment], {all[i]}`failedHeartbeatCount
      ensures Progress(all, heartbeat, view, lists, start, dead', i + 1)
    {
      var rc := all[i];
      UnreliablesMember(all[..i], view, heartbeat, rc);
      assert rc !in all[..i];
      UnreliablesStep(all, i, view, heartbeat);
      ghost var gone;
      gone, dead' := SweepOne(rc, heartbeat, view, lists, start, dead);
      forall j | 0 <= j < |all| && j != i
        ensures all[j].failedHeartbeatCount == old(all[j].failedHeartbeatCount)
        ensures all[j].sessionInProgress == old(all[j].sessionInProgress)
      {
        assert all[j] != rc;
      }
    }

    /** One step of the sweep: the check of `rc`, and what its verdict does to the sweep's state. */
    method SweepOne(remoteControl: RemoteControlProxy, heartbeat: Heartbeat, ghost view: View,
                    ghost lists: map<string, seq<RemoteControlProxy>>, ghost start: map<string, RemoteControlSession>,
                    ghost dead: set<RemoteControlProxy>)
      returns (ghost gone: bool, ghost dead': set<RemoteControlProxy>)
      requires Valid() && Swept(lists, start, dead)
      requires remoteControl.environment in lists && remoteControl in lists[remoteControl.environment]
      requires remoteControl !in dead
      requires StandingOf(remoteControl) == StandingIn(view, remoteControl)
      modifies this`sessions, provisioners[remoteControl.environment], remoteControl`failedHeartbeatCount
      ensures Valid() && Swept(lists, start, dead')
      ensures gone == Unhealthy(view, remoteControl, heartbeat)
      ensures dead' == if gone then dead + {remoteControl} else dead
      ensures remoteControl.failedHeartbeatCount == 0
    {
      ghost var e := remoteControl.environment;
      KeptMember(lists[e], dead, remoteControl);
      gone := UnregisterRemoteControlIfUnreliable(remoteControl, heartbeat);
      if gone {
        KeptOneMore(lists[e], dead, remoteControl);
        forall e' | e' in provisioners && e' != e
          ensures Kept(lists[e'], dead + {remoteControl}) == Kept(lists[e'], dead)
        {
          KeptAbsent(lists[e'], dead, remoteControl);
        }
        PurgedOneMore(start, dead, remoteControl);
        dead' := dead + {remoteControl};
      } else {
        dead' := dead;
      }
    }

    /**
     * What the recycling sweep over `snapshot` keeps whatever happens: `idle` still names
     * the sessions idle at `now`, only idle sessions were `recycled` and dropped from the
     * map, and a worker that none of them ran on (`touched` holds those that did) keeps
     * the flag `flags` recorded for it at the start.
     */
    ghost predicate Recycled(snapshot: map<string, RemoteControlSession>, milliseconds: int, now: int,
                             flags: map<string, bool>, idle: set<string>, recycled: set<string>,
                             touched: set<RemoteControlProxy>)
      reads this, provisioners.Values, snapshot.Values, WorkersOf(snapshot, snapshot.Keys)
    {
      && Valid() && flags.Keys == snapshot.Keys
      && idle == IdleKeys(snapshot, milliseconds, now)
      && recycled <= idle
      && sessions == snapshot - recycled
      && touched == WorkersOf(snapshot, recycled)
      && (forall k :: k in snapshot && snapshot[k].remoteControl !in touched ==>
            snapshot[k].remoteControl.sessionInProgress == flags[k])
    }

    /**
     * The recycling sweep still has the ids `left` to visit: every idle session already
     * visited was recycled, and the worker of every recycled one was left idle.
     */
    ghost predicate Recycling(snapshot: map<string, RemoteControlSession>, milliseconds: int, now: int,
                              flags: map<string, bool>, idle: set<string>, left: set<string>,
                              recycled: set<string>, touched: set<RemoteControlProxy>)
      reads this, provisioners.Values, snapshot.Values, WorkersOf(snapshot, snapshot.Keys)
    {
      && Recycled(snapshot, milliseconds, now, flags, idle, recycled, touched)
      && left <= snapshot.Keys
      && recycled !! left
      && idle - left <= recycled
      && (forall w :: w in touched ==> !w.sessionInProgress)
    }

    /**
     * `recycleAllSessionsIdleForTooLong`: every session of a snapshot that has been idle
     * for `milliseconds` or more at clock `now` is released for its id. The first
     * release that throws ends the sweep; sessions visited before it stay released.
     * A completed sweep leaves the worker of every recycled session idle; a worker that
     * no recycled session ran on keeps its flag either way.
     */
    method RecycleAllSessionsIdleForTooLong(milliseconds: int, now: int) returns (o: Outcome, ghost recycled: set<string>)
      requires Valid()
      modifies this`sessions, (set k | k in sessions :: sessions[k].remoteControl)`sessionInProgress
      ensures Valid()
      ensures recycled <= old(IdleKeys(sessions, milliseconds, now))
      ensures sessions == old(sessions) - recycled
      ensures o.Pass? ==> recycled == old(IdleKeys(sessions, milliseconds, now))
      ensures o.Pass? ==> forall k :: k in recycled ==> !old(sessions)[k].remoteControl.sessionInProgress
      ensures forall k :: k in old(sessions) && old(sessions)[k].remoteControl !in WorkersOf(old(sessions), recycled) ==>
                old(sessions)[k].remoteControl.sessionInProgress == old(sessions[k].remoteControl.sessionInProgress)
    {
      var snapshot := sessions;
      ghost var idle := IdleKeys(snapshot, milliseconds, now);
      ghost var flags := map k | k in snapshot :: snapshot[k].remoteControl.sessionInProgress;
      var left := snapshot.Keys;
      recycled := {};
      ghost var touched: set<RemoteControlProxy> := {};
      o := Pass;
      while left != {} && o.Pass?
        invariant Recycled(snapshot, milliseconds, now, flags, idle, recycled, touched)
        invariant o.Pass? ==> Recycling(snapshot, milliseconds, now, flags, idle, left, recycled, touched)
        decreases |left|
      {
        var id :| id in left;
        o, recycled, touched := RecycleStep(snapshot, id, milliseconds, now, flags, idle, recycled, touched);
        left := left - {id};
      }
      if o.Pass? {
        AllVisited(idle, left, recycled);
      }
    }

    /**
     * The recycling sweep's visit of the session filed under `id`: an idle one joins
     * `recycled` and, once released, leaves its worker idle; a younger one changes nothing.
     */
    method RecycleStep(snapshot: map<string, RemoteControlSession>, id: string, milliseconds: int, now: int,
                       ghost flags: map<string, bool>, ghost idle: set<string>,
                       ghost recycled: set<string>, ghost touched: set<RemoteControlProxy>)
      returns (o: Outcome, ghost recycled': set<string>, ghost touched': set<RemoteControlProxy>)
      requires Recycled(snapshot, milliseconds, now, flags, idle, recycled, touched) && id in snapshot && id !in recycled
      requires forall w :: w in touched ==> !w.sessionInProgress
      modifies this`sessions, snapshot[id].remoteControl`sessionInProgress
      ensures Recycled(snapshot, milliseconds, now, flags, idle, recycled', touched')
      ensures o.Pass? ==> forall w :: w in touched' ==> !w.sessionInProgress
      ensures id in idle ==> recycled' == recycled + {id}
      ensures id !in idle ==> o.Pass? && recycled' == recycled
    {
      var session := snapshot[id];
      ghost var wasIdle := session.InnactiveForMoreThan(milliseconds, now);
      assert id in sessions && sessions[id] == session;
      o := RecycleSessionIfIdleForTooLong(session, milliseconds, now);
      assert idle == IdleKeys(snapshot, milliseconds, now) by {
        forall k | k in snapshot ensures snapshot[k].lastActiveAt == old(snapshot[k].lastActiveAt) { }
      }
      forall k | k in snapshot && snapshot[k].remoteControl != session.remoteControl
        ensures snapshot[k].remoteControl.sessionInProgress == old(snapshot[k].remoteControl.sessionInProgress)
      { }
      if wasIdle {
        MinusOneMore(snapshot, recycled, id);
        WorkersOfOneMore(snapshot, recycled, id);
        recycled', touched' := recycled + {id}, touched + {session.remoteControl};
        forall k | k in snapshot && snapshot[k].remoteControl !in touched'
          ensures snapshot[k].remoteControl.sessionInProgress == flags[k]
        {
          assert snapshot[k].remoteControl != session.remoteControl;
        }
        if o.Pass? {
          forall w | w in touched' ensures !w.sessionInProgress {
            if w != session.remoteControl {
              assert w in touched;
            }
          }
        }
      } else {
        recycled', touched' := recycled, touched;
        forall w | w in touched' ensures !w.sessionInProgress {
          assert w.sessionInProgress == old(w.sessionInProgress);
        }
      }
    }

    /**
     * `recycleSessionIfIdleForTooLong(s, limit)`: a session idle for at least the limit
     * is released for its id; a younger one is left alone.
     */
    method RecycleSessionIfIdleForTooLong(session: RemoteControlSession, milliseconds: int, now: int) returns (o: Outcome)
      requires Valid() && session.sessionId in sessions && sessions[session.sessionId] == session
      modifies this`sessions, session.remoteControl`sessionInProgress
      ensures Valid()
      ensures !session.InnactiveForMoreThan(milliseconds, now) ==>
                && o == Pass && sessions == old(sessions)
                && session.remoteControl.sessionInProgress == old(session.remoteControl.sessionInProgress)
      ensures session.InnactiveForMoreThan(milliseconds, now) ==>
                var rc := session.remoteControl;
                && sessions == old(sessions) - {session.sessionId}
                && (rc.request.None? || rc.environment !in provisioners ==>
                      o == Fail(NullPointer) && rc.sessionInProgress == old(rc.sessionInProgress))
                && (rc.request.Some? && rc.environment in provisioners ==>
                      !rc.sessionInProgress && (o == Pass <==> old(rc.sessionInProgress)))
                && (rc.request.Some? && rc.environment in provisioners && !old(rc.sessionInProgress) ==>
                      o == Fail(IllegalState("Unregistering session on an idle remote control : " + old(rc.Description()))))
    {
      if session.InnactiveForMoreThan(milliseconds, now) {
        o := ReleaseForSession(session.sessionId);
      } else {
        o := Pass;
      }
    }
  }

  /** The workers of the sessions filed under `keys`. */
  function WorkersOf(m: map<string, RemoteControlSession>, keys: set<string>): set<RemoteControlProxy> {
    set k | k in keys && k in m :: m[k].remoteControl
  }

  lemma WorkersOfOneMore(m: map<string, RemoteControlSession>, keys: set<string>, k: string)
    requires k in m
    ensures WorkersOf(m, keys + {k}) == WorkersOf(m, keys) + {m[k].remoteControl}
  {
  }

  /** Dropping one more session object from a session map. */
  lemma WithoutOneMore(m: map<string, RemoteControlSession>, gone: set<RemoteControlSession>, s: RemoteControlSession)
    ensures WithoutSession(WithoutSessions(m, gone), s) == WithoutSessions(m, gone + {s})
  {
  }

  /** Adding `p` to a list whose proxies all belong to `p`'s environment keeps it so. */
  lemma AddKeepsHome(s: seq<RemoteControlProxy>, p: RemoteControlProxy)
    requires forall q :: q in s ==> q.environment == p.environment
    ensures forall q :: q in RemoveFirstEqual(s, p) + [p] ==> q.environment == p.environment
  {
    var i := IndexOf(s, p);
    if i >= 0 {
      forall q | q in RemoveAt(s, i) ensures q in s {
        var j :| 0 <= j < |RemoveAt(s, i)| && RemoveAt(s, i)[j] == q;
        assert j < i ==> RemoveAt(s, i)[j] == s[j];
      }
    }
  }
}
