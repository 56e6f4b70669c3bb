/**
 * The per-environment provisioner (RemoteControlProvisioner.java): an ordered list
 * of worker proxies, reservation of the first free healthy one (evicting the
 * unhealthy ones it meets), release, add with replacement of a stale equal proxy,
 * removal, and filtered snapshots of the list.
 */
module Provisioning {

  import opened Faults
  import opened Http
  import opened Proxies

  // ---- the list operations of java.util.List, by `equals` (host and port) ----

  /** `indexOf(p)`: the first position holding a proxy equal to `p`, or -1. */
  function IndexOf(s: seq<RemoteControlProxy>, p: RemoteControlProxy): (i: int)
    ensures -1 <= i < |s|
    ensures i >= 0 ==> SameRemoteControl(s[i], p) && forall j :: 0 <= j < i ==> !SameRemoteControl(s[j], p)
    ensures i == -1 <==> forall j :: 0 <= j < |s| ==> !SameRemoteControl(s[j], p)
    decreases |s|
  {
    if s == [] then -1
    else if SameRemoteControl(s[0], p) then 0
    else
      var k := IndexOf(s[1..], p);
      if k < 0 then -1 else k + 1
  }

  function RemoveAt(s: seq<RemoteControlProxy>, i: nat): (r: seq<RemoteControlProxy>)
    requires i < |s|
    ensures |r| == |s| - 1
    ensures forall j :: 0 <= j < i ==> r[j] == s[j]
    ensures forall j :: i <= j < |r| ==> r[j] == s[j + 1]
  {
    s[..i] + s[i + 1..]
  }

  /** `remove(p)` on the list: the first element equal to `p` goes, if there is one. */
  function RemoveFirstEqual(s: seq<RemoteControlProxy>, p: RemoteControlProxy): seq<RemoteControlProxy> {
    var i := IndexOf(s, p);
    if i < 0 then s else RemoveAt(s, i)
  }

  /** No two proxies in the list stand for the same worker. */
  predicate NoDupIds(s: seq<RemoteControlProxy>) {
    forall i, j :: 0 <= i < j < |s| ==> !SameRemoteControl(s[i], s[j])
  }

  // ---- what reservation reads of the proxies ----

  /** The two fields of a proxy that reservation and the health check read. */
  datatype Standing = Standing(inSession: bool, failedHeartbeats: int)

  /** The standings of a list's proxies, taken at one moment. */
  type View = map<RemoteControlProxy, Standing>

  function StandingOf(p: RemoteControlProxy): Standing
    reads p
  {
    Standing(p.sessionInProgress, p.failedHeartbeatCount)
  }

  /** The view of `s` in the current state. */
  function SnapshotOf(s: seq<RemoteControlProxy>): (view: View)
    reads s
    ensures Agrees(view, s)
  {
    map p | p in s :: StandingOf(p)
  }

  /** A proxy's standing in a view; a proxy the view does not cover counts as fresh. */
  function StandingIn(view: View, p: RemoteControlProxy): Standing {
    if p in view then view[p] else Standing(false, 0)
  }

  /** The view tells the truth about every proxy of `s`. */
  predicate Agrees(view: View, s: seq<RemoteControlProxy>)
    reads s
  {
    forall p :: p in s ==> StandingIn(view, p) == StandingOf(p)
  }

  /** `canHandleNewSession()` as the view sees it. */
  predicate Free(view: View, p: RemoteControlProxy) {
    !StandingIn(view, p).inSession
  }

  /** What `unreliable()` answers for `p` in the standing the view gives it. */
  predicate Unhealthy(view: View, p: RemoteControlProxy, heartbeat: Heartbeat) {
    Unresponsive(heartbeat, p.PingURL(), StandingIn(view, p).inSession, StandingIn(view, p).failedHeartbeats)
  }

  /** The position `findNextAvailableRemoteControl` stops at: the first free proxy. */
  function FirstFreeIndex(s: seq<RemoteControlProxy>, view: View): (r: Option<nat>)
    ensures r.Some? ==> r.value < |s| && Free(view, s[r.value]) &&
                        forall j :: 0 <= j < r.value ==> !Free(view, s[j])
    ensures r.None? <==> forall j :: 0 <= j < |s| ==> !Free(view, s[j])
    decreases |s|
  {
    if s == [] then None
    else if Free(view, s[0]) then Some(0)
    else
      match FirstFreeIndex(s[1..], view)
      case None => None
      case Some(k) => Some(k + 1)
  }

  /** Two views that agree on which proxies of `s` are free find the same first free one. */
  lemma FirstFreeIndexSameFree(s: seq<RemoteControlProxy>, v1: View, v2: View)
    requires forall j :: 0 <= j < |s| ==> (Free(v1, s[j]) <==> Free(v2, s[j]))
    ensures FirstFreeIndex(s, v1) == FirstFreeIndex(s, v2)
  {
    var a, b := FirstFreeIndex(s, v1), FirstFreeIndex(s, v2);
    if a.Some? && b.Some? {
      assert !(a.value < b.value) && !(b.value < a.value);
    }
  }

  /**
   * The outcome of `reserve()` on a list whose proxies stand as `view` says: the proxy
   * reserved (None when the list is or becomes empty, or no proxy is free) and the list
   * left behind. A free candidate that fails the health check is torn down and the
   * search starts again.
   */
  function ReservePlan(s: seq<RemoteControlProxy>, view: View, heartbeat: Heartbeat)
    : (plan: (Option<RemoteControlProxy>, seq<RemoteControlProxy>))
    ensures |plan.1| <= |s| && forall p :: p in plan.1 ==> p in s
    ensures plan.0.Some? ==> plan.0.value in plan.1 && Free(view, plan.0.value)
    decreases |s|
  {
    match FirstFreeIndex(s, view)
    case None => (None, s)
    case Some(i) =>
      var candidate := s[i];
      if Unhealthy(view, candidate, heartbeat) then
        var rest := RemoveAt(s, IndexOf(s, candidate));
        assert forall p :: p in rest ==> p in s by {
          forall p | p in rest ensures p in s {
            var j :| 0 <= j < |rest| && rest[j] == p;
            assert j < IndexOf(s, candidate) ==> rest[j] == s[j];
          }
        }
        ReservePlan(rest, view, heartbeat)
      else (Some(candidate), s)
  }

  /** The in-session filter of `reservedRemoteControls`, in list order. */
  function BusyOf(s: seq<RemoteControlProxy>, view: View): seq<RemoteControlProxy>
    decreases |s|
  {
    if s == [] then [] else (if Free(view, s[0]) then [] else [s[0]]) + BusyOf(s[1..], view)
  }

  /** The free filter of `availableRemoteControls`, in list order. */
  function FreeOf(s: seq<RemoteControlProxy>, view: View): seq<RemoteControlProxy>
    decreases |s|
  {
    if s == [] then [] else (if Free(view, s[0]) then [s[0]] else []) + FreeOf(s[1..], view)
  }

  // ---- lemmas about the list functions ----

  lemma {:induction false} BusyOfConcat(a: seq<RemoteControlProxy>, b: seq<RemoteControlProxy>, view: View)
    ensures BusyOf(a + b, view) == BusyOf(a, view) + BusyOf(b, view)
    decreases |a|
  {
    if a != [] {
      var head := if Free(view, a[0]) then [] else [a[0]];
      assert (a + b)[0] == a[0] && (a + b)[1..] == a[1..] + b;
      calc {
        BusyOf(a + b, view);
        head + BusyOf(a[1..] + b, view);
        { BusyOfConcat(a[1..], b, view); }
        head + (BusyOf(a[1..], view) + BusyOf(b, view));
        (head + BusyOf(a[1..], view)) + BusyOf(b, view);
        BusyOf(a, view) + BusyOf(b, view);
      }
    } else {
      assert a + b == b;
    }
  }

  lemma {:induction false} FreeOfConcat(a: seq<RemoteControlProxy>, b: seq<RemoteControlProxy>, view: View)
    ensures FreeOf(a + b, view) == FreeOf(a, view) + FreeOf(b, view)
    decreases |a|
  {
    if a != [] {
      var head := if Free(view, a[0]) then [a[0]] else [];
      assert (a + b)[0] == a[0] && (a + b)[1..] == a[1..] + b;
      calc {
        FreeOf(a + b, view);
        head + FreeOf(a[1..] + b, view);
        { FreeOfConcat(a[1..], b, view); }
        head + (FreeOf(a[1..], view) + FreeOf(b, view));
        (head + FreeOf(a[1..], view)) + FreeOf(b, view);
        FreeOf(a, view) + FreeOf(b, view);
      }
    } else {
      assert a + b == b;
    }
  }

  /** A list whose proxies are all in session is its own reserved filter. */
  lemma {:induction false} BusyOfAllBusy(s: seq<RemoteControlProxy>, view: View)
    requires forall j :: 0 <= j < |s| ==> !Free(view, s[j])
    ensures BusyOf(s, view) == s
    decreases |s|
  {
    if s != [] {
      BusyOfAllBusy(s[1..], view);
    }
  }

  /**
   * `availableRemoteControls` and `reservedRemoteControls` split the list: together
   * they hold the list's proxies, each as often as the list does.
   */
  lemma {:induction false} SnapshotsPartition(s: seq<RemoteControlProxy>, view: View)
    ensures multiset(FreeOf(s, view)) + multiset(BusyOf(s, view)) == multiset(s)
    decreases |s|
  {
    if s != [] {
      SnapshotsPartition(s[1..], view);
      assert s == [s[0]] + s[1..];
      var f, b := FreeOf(s[1..], view), BusyOf(s[1..], view);
      if Free(view, s[0]) {
        assert FreeOf(s, view) == [s[0]] + f && BusyOf(s, view) == b;
        assert multiset(FreeOf(s, view)) == multiset([s[0]]) + multiset(f);
      } else {
        assert FreeOf(s, view) == f && BusyOf(s, view) == [s[0]] + b;
        assert multiset(BusyOf(s, view)) == multiset([s[0]]) + multiset(b);
      }
    }
  }

  /** A proxy is in the available snapshot exactly when it is in the list and free. */
  lemma {:induction false} FreeOfMembers(s: seq<RemoteControlProxy>, view: View)
    ensures forall p :: p in FreeOf(s, view) <==> p in s && Free(view, p)
    decreases |s|
  {
    if s != [] {
      FreeOfMembers(s[1..], view);
      assert s == [s[0]] + s[1..];
    }
  }

  /** A proxy is in the reserved snapshot exactly when it is in the list and in session. */
  lemma {:induction false} BusyOfMembers(s: seq<RemoteControlProxy>, view: View)
    ensures forall p :: p in BusyOf(s, view) <==> p in s && !Free(view, p)
    decreases |s|
  {
    if s != [] {
      BusyOfMembers(s[1..], view);
      assert s == [s[0]] + s[1..];
    }
  }

  lemma NoDupIdsRemoveAt(s: seq<RemoteControlProxy>, i: nat)
    requires NoDupIds(s) && i < |s|
    ensures NoDupIds(RemoveAt(s, i))
  {
    var r := RemoveAt(s, i);
    forall a, b | 0 <= a < b < |r| ensures !SameRemoteControl(r[a], r[b]) {
      var a', b' := if a < i then a else a + 1, if b < i then b else b + 1;
      assert r[a] == s[a'] && r[b] == s[b'];
    }
  }

  /**
   * After `add(p)` on a list of distinct workers the list again names distinct workers,
   * `p` is last, no other element equals `p`, and every other worker is still there.
   */
  lemma AddLeavesOneEqual(s: seq<RemoteControlProxy>, p: RemoteControlProxy)
    requires NoDupIds(s)
    ensures var t := RemoveFirstEqual(s, p) + [p];
            && NoDupIds(t)
            && t[|t| - 1] == p
            && (forall j :: 0 <= j < |t| - 1 ==> !SameRemoteControl(t[j], p))
            && (forall q :: q in s && !SameRemoteControl(q, p) ==> q in t)
            && |t| == |s| + (if IndexOf(s, p) < 0 then 1 else 0)
  {
    RemoveFirstEqualDropsOnly(s, p);
    var r := RemoveFirstEqual(s, p);
    var t := r + [p];
    forall a, b | 0 <= a < b < |t| ensures !SameRemoteControl(t[a], t[b]) {
      if b < |r| {
        assert t[a] == r[a] && t[b] == r[b];
      } else {
        assert t[a] in r;
      }
    }
  }

  /**
   * `remove(p)` on a list of distinct workers: afterwards no element equals `p`,
   * every other worker is still there, and the workers stay distinct.
   */
  lemma RemoveFirstEqualDropsOnly(s: seq<RemoteControlProxy>, p: RemoteControlProxy)
    requires NoDupIds(s)
    ensures NoDupIds(RemoveFirstEqual(s, p))
    ensures forall q :: q in RemoveFirstEqual(s, p) ==> q in s && !SameRemoteControl(q, p)
    ensures forall q :: q in s && !SameRemoteControl(q, p) ==> q in RemoveFirstEqual(s, p)
  {
    var i := IndexOf(s, p);
    if i >= 0 {
      NoDupIdsRemoveAt(s, i);
      var r := RemoveAt(s, i);
      forall q | q in r ensures q in s && !SameRemoteControl(q, p) {
        var j :| 0 <= j < |r| && r[j] == q;
        if j < i {
          assert r[j] == s[j];
        } else {
          assert r[j] == s[j + 1];
        }
      }
      forall q | q in s && !SameRemoteControl(q, p) ensures q in r {
        var j :| 0 <= j < |s| && s[j] == q;
        if j < i {
          assert r[j] == q;
        } else {
          assert j != i;
          assert r[j - 1] == q;
        }
      }
    }
  }

  /**
   * The reservation outcome in closed form, for a list of distinct workers: with `k`
   * the position of the reserved proxy (the list's length when none is reserved),
   * every free proxy before `k` failed its health check and was evicted, the proxy at
   * `k` is free and healthy, and the list keeps the busy proxies before `k` and
   * everything from `k` on, in order.
   */
  lemma {:induction false} ReservePlanClosedForm(s: seq<RemoteControlProxy>, view: View, heartbeat: Heartbeat)
    requires NoDupIds(s)
    ensures exists k :: 0 <= k <= |s| &&
              ReservedAt(s, view, heartbeat, k, ReservePlan(s, view, heartbeat).0, ReservePlan(s, view, heartbeat).1)
    decreases |s|
  {
    var plan := ReservePlan(s, view, heartbeat);
    match FirstFreeIndex(s, view)
    case None =>
      ClosedFormNoneFree(s, view, heartbeat);
    case Some(i) =>
      if Unhealthy(view, s[i], heartbeat) {
        EvictStep(s, view, heartbeat, i);
        var rest := RemoveAt(s, i);
        ReservePlanClosedForm(rest, view, heartbeat);
        var k1 :| 0 <= k1 <= |rest| && ReservedAt(rest, view, heartbeat, k1, plan.0, plan.1);
        ShiftCut(s, view, heartbeat, i, k1, plan.0, plan.1);
        assert ReservedAt(s, view, heartbeat, k1 + 1, plan.0, plan.1);
      } else {
        ClosedFormHealthy(s, view, heartbeat, i);
      }
  }

  /** With no free proxy, nothing is reserved and the whole list stays, busy prefix and all. */
  lemma ClosedFormNoneFree(s: seq<RemoteControlProxy>, view: View, heartbeat: Heartbeat)
    requires FirstFreeIndex(s, view) == None
    ensures ReservedAt(s, view, heartbeat, |s|, ReservePlan(s, view, heartbeat).0, ReservePlan(s, view, heartbeat).1)
  {
    BusyOfAllBusy(s, view);
    assert s[..|s|] == s;
  }

  /** When the first free proxy is healthy, it is the one reserved and the list stays whole. */
  lemma ClosedFormHealthy(s: seq<RemoteControlProxy>, view: View, heartbeat: Heartbeat, i: nat)
    requires FirstFreeIndex(s, view) == Some(i) && i < |s| && !Unhealthy(view, s[i], heartbeat)
    ensures ReservedAt(s, view, heartbeat, i, ReservePlan(s, view, heartbeat).0, ReservePlan(s, view, heartbeat).1)
  {
    var prefix := s[..i];
    forall j | 0 <= j < |prefix| ensures !Free(view, prefix[j]) {
      assert prefix[j] == s[j];
    }
    BusyOfAllBusy(prefix, view);
    assert s == prefix + s[i..];
    assert ReservePlan(s, view, heartbeat) == (Some(s[i]), s);
  }

  /** The shape `ReservePlanClosedForm` states, for one choice of the cut-off position `k`. */
  predicate ReservedAt(s: seq<RemoteControlProxy>, view: View, heartbeat: Heartbeat, k: nat,
                       reserved: Option<RemoteControlProxy>, rest: seq<RemoteControlProxy>)
    requires k <= |s|
  {
    && rest == BusyOf(s[..k], view) + s[k..]
    && (forall j :: 0 <= j < k && Free(view, s[j]) ==> Unhealthy(view, s[j], heartbeat))
    && (reserved.None? ==> k == |s|)
    && (reserved.Some? ==> k < |s| && reserved.value == s[k] &&
                           Free(view, s[k]) && !Unhealthy(view, s[k], heartbeat))
  }

  /**
   * One eviction: when the first free proxy is unhealthy, reserving from the list is
   * reserving from the list without it, and it is no longer in that list.
   */
  lemma EvictStep(s: seq<RemoteControlProxy>, view: View, heartbeat: Heartbeat, i: nat)
    requires NoDupIds(s) && FirstFreeIndex(s, view) == Some(i) && Unhealthy(view, s[i], heartbeat)
    ensures IndexOf(s, s[i]) == i
    ensures ReservePlan(s, view, heartbeat) == ReservePlan(RemoveAt(s, i), view, heartbeat)
    ensures NoDupIds(RemoveAt(s, i))
    ensures s[i] !in RemoveAt(s, i)
    ensures forall p :: p in RemoveAt(s, i) ==> p in s
  {
    NoDupIdsRemoveAt(s, i);
    var r := RemoveAt(s, i);
    forall j | 0 <= j < |r| ensures r[j] != s[i] && r[j] in s {
      var j' := if j < i then j else j + 1;
      assert r[j] == s[j'];
    }
  }

  /** Taking out the first free proxy of a list of distinct workers leaves distinct workers, without it. */
  lemma EvictStep'(s: seq<RemoteControlProxy>, view: View, i: nat)
    requires NoDupIds(s) && FirstFreeIndex(s, view) == Some(i)
    ensures IndexOf(s, s[i]) == i
    ensures NoDupIds(RemoveAt(s, i))
    ensures s[i] !in RemoveAt(s, i)
    ensures forall p :: p in RemoveAt(s, i) ==> p in s
  {
    NoDupIdsRemoveAt(s, i);
    var r := RemoveAt(s, i);
    forall j | 0 <= j < |r| ensures r[j] != s[i] && r[j] in s {
      var j' := if j < i then j else j + 1;
      assert r[j] == s[j'];
    }
  }

  /** The cut-off position moves by one when the evicted proxy is put back in front of it. */
  lemma ShiftCut(s: seq<RemoteControlProxy>, view: View, heartbeat: Heartbeat, i: nat, k1: nat,
                 reserved: Option<RemoteControlProxy>, rest: seq<RemoteControlProxy>)
    requires FirstFreeIndex(s, view) == Some(i) && Unhealthy(view, s[i], heartbeat)
    requires k1 <= |s| - 1 && ReservedAt(RemoveAt(s, i), view, heartbeat, k1, reserved, rest)
    ensures ReservedAt(s, view, heartbeat, k1 + 1, reserved, rest)
  {
    CutAfterEvicted(s, view, heartbeat, i, k1, reserved, rest);
    BusyOfShift(s, view, i, k1);
    SuffixShift(s, i, k1);
    EvictedBeforeCut(s, view, heartbeat, i, k1, reserved, rest);
  }

  lemma SuffixShift(s: seq<RemoteControlProxy>, i: nat, k1: nat)
    requires i <= k1 < |s|
    ensures RemoveAt(s, i)[k1..] == s[k1 + 1..]
  {
  }

  /** Every free proxy before the moved cut-off failed its health check. */
  lemma EvictedBeforeCut(s: seq<RemoteControlProxy>, view: View, heartbeat: Heartbeat, i: nat, k1: nat,
                         reserved: Option<RemoteControlProxy>, rest: seq<RemoteControlProxy>)
    requires i < |s| && Unhealthy(view, s[i], heartbeat) && i <= k1 <= |s| - 1
    requires ReservedAt(RemoveAt(s, i), view, heartbeat, k1, reserved, rest)
    ensures forall j :: 0 <= j < k1 + 1 && Free(view, s[j]) ==> Unhealthy(view, s[j], heartbeat)
    ensures reserved.Some? ==> k1 + 1 < |s| && reserved.value == s[k1 + 1]
  {
    var r := RemoveAt(s, i);
    forall j | 0 <= j < k1 + 1 && Free(view, s[j]) ensures Unhealthy(view, s[j], heartbeat) {
      if j < i {
        assert s[j] == r[j];
      } else if j > i {
        assert s[j] == r[j - 1];
      }
    }
  }

  /** The proxy reserved after an eviction sits at or after the evicted one's place. */
  lemma CutAfterEvicted(s: seq<RemoteControlProxy>, view: View, heartbeat: Heartbeat, i: nat, k1: nat,
                        reserved: Option<RemoteControlProxy>, rest: seq<RemoteControlProxy>)
    requires FirstFreeIndex(s, view) == Some(i)
    requires k1 <= |s| - 1 && ReservedAt(RemoveAt(s, i), view, heartbeat, k1, reserved, rest)
    ensures i <= k1
  {
    var r := RemoveAt(s, i);
    if k1 < |r| && reserved.Some? {
      assert Free(view, r[k1]);
    }
  }

  /** The reserved filter of the prefix before the cut is the same with or without the evicted proxy. */
  lemma BusyOfShift(s: seq<RemoteControlProxy>, view: View, i: nat, k1: nat)
    requires i <= k1 < |s| && Free(view, s[i])
    ensures BusyOf(s[..k1 + 1], view) == BusyOf(RemoveAt(s, i)[..k1], view)
  {
    var r := RemoveAt(s, i);
    BusyOfCut(s, view, i, k1 + 1);
    assert r[..i] == s[..i] && r[i..k1] == s[i + 1..k1 + 1];
    assert r[..k1] == r[..i] + r[i..k1];
    BusyOfConcat(r[..i], r[i..k1], view);
  }

  /** Dropping a free proxy from a prefix does not change its reserved filter. */
  lemma BusyOfCut(s: seq<RemoteControlProxy>, view: View, i: nat, k: nat)
    requires i < k <= |s| && Free(view, s[i])
    ensures BusyOf(s[..k], view) == BusyOf(s[..i], view) + BusyOf(s[i + 1..k], view)
  {
    assert s[..k] == (s[..i] + [s[i]]) + s[i + 1..k];
    BusyOfConcat(s[..i] + [s[i]], s[i + 1..k], view);
    BusyOfConcat(s[..i], [s[i]], view);
    assert BusyOf([s[i]], view) == [];
  }

  /** A free proxy that passes its health check, first in list order, is the one reserved. */
  lemma ReserveHealthy(s: seq<RemoteControlProxy>, view: View, heartbeat: Heartbeat, i: nat)
    requires FirstFreeIndex(s, view) == Some(i) && !Unhealthy(view, s[i], heartbeat)
    ensures ReservePlan(s, view, heartbeat) == (Some(s[i]), s)
  {
  }

  /** When no proxy is free, reservation times out at once: nothing reserved, nothing evicted. */
  lemma ReserveNoneFree(s: seq<RemoteControlProxy>, view: View, heartbeat: Heartbeat)
    requires forall j :: 0 <= j < |s| ==> !Free(view, s[j])
    ensures ReservePlan(s, view, heartbeat) == (None, s)
  {
  }

  /** Every proxy of `s` other than `reserved` still has the session flag `view` recorded. */
  predicate FlagsKept(s: seq<RemoteControlProxy>, view: View, reserved: Option<RemoteControlProxy>)
    reads s
  {
    forall p :: p in s && reserved != Some(p) ==> p.sessionInProgress == StandingIn(view, p).inSession
  }

  /** Every proxy of `s` other than `reserved` still has the failure count `view` recorded. */
  predicate CountsKept(s: seq<RemoteControlProxy>, view: View, reserved: Option<RemoteControlProxy>)
    reads s
  {
    forall p :: p in s && reserved != Some(p) ==> p.failedHeartbeatCount == StandingIn(view, p).failedHeartbeats
  }

  /** `reserved` and `rest` are what `ReservePlan` says reservation yields from `s`. */
  predicate Planned(s: seq<RemoteControlProxy>, view: View, heartbeat: Heartbeat,
                    reserved: Option<RemoteControlProxy>, rest: seq<RemoteControlProxy>)
  {
    ReservePlan(s, view, heartbeat) == (reserved, rest)
  }

  class RemoteControlProvisioner {
    var remoteControls: seq<RemoteControlProxy>

    /** The list never names the same worker twice; `add` keeps it that way. */
    predicate Valid()
      reads this
    {
      NoDupIds(remoteControls)
    }

    constructor ()
      ensures Valid() && remoteControls == []
    {
      remoteControls := [];
    }

    /** `contains(p)`: some proxy in the list is equal to `p`. */
    predicate Contains(p: RemoteControlProxy)
      reads this
      ensures Contains(p) <==> exists i :: 0 <= i < |remoteControls| && SameRemoteControl(remoteControls[i], p)
    {
      IndexOf(remoteControls, p) >= 0
    }

    /**
     * `tearDownExistingRemoteControl(p)`: the proxy equal to `p` is taken out of the
     * list; when there is none, `get(-1)` fails with an index error and nothing changes.
     */
    method TearDownExistingRemoteControl(p: RemoteControlProxy) returns (o: Outcome)
      modifies this`remoteControls
      ensures old(Contains(p)) ==> o == Pass && remoteControls == RemoveAt(old(remoteControls), old(IndexOf(remoteControls, p)))
      ensures !old(Contains(p)) ==> o == Fail(IndexOutOfBounds(-1, |old(remoteControls)|)) && remoteControls == old(remoteControls)
      ensures old(Valid()) ==> Valid()
    {
      var i := IndexOf(remoteControls, p);
      if i < 0 {
        return Fail(IndexOutOfBounds(i, |remoteControls|));
      }
      var existing := remoteControls[i];
      assert IndexOf(remoteControls, existing) == i;
      if Valid() {
        NoDupIdsRemoveAt(remoteControls, i);
      }
      remoteControls := RemoveFirstEqual(remoteControls, existing);
      return Pass;
    }

    /** `add(p)`: a stale proxy equal to `p` is replaced, and `p` goes at the end. */
    method Add(p: RemoteControlProxy)
      requires Valid()
      modifies this`remoteControls
      ensures Valid()
      ensures remoteControls == RemoveFirstEqual(old(remoteControls), p) + [p]
    {
      AddLeavesOneEqual(remoteControls, p);
      if Contains(p) {
        var torn := TearDownExistingRemoteControl(p);
        assert torn == Pass;
      }
      remoteControls := remoteControls + [p];
    }

    /** `remove(p)`: true exactly when a proxy equal to `p` was there; that one goes. */
    method Remove(p: RemoteControlProxy) returns (removed: bool)
      modifies this`remoteControls
      ensures removed <==> old(Contains(p))
      ensures remoteControls == RemoveFirstEqual(old(remoteControls), p)
      ensures old(Valid()) ==> Valid()
    {
      removed := Contains(p);
      if Valid() {
        RemoveFirstEqualDropsOnly(remoteControls, p);
      }
      remoteControls := RemoveFirstEqual(remoteControls, p);
    }

    /** `release(p)`: the proxy's session ends; the list is left as it is. */
    method Release(p: RemoteControlProxy) returns (o: Outcome)
      modifies p`sessionInProgress
      ensures !p.sessionInProgress
      ensures old(p.sessionInProgress) <==> o == Pass
      ensures !old(p.sessionInProgress) ==>
                o == Fail(IllegalState("Unregistering session on an idle remote control : " + old(p.Description())))
    {
      o := p.UnregisterSession();
    }

    /** `findNextAvailableRemoteControl()`: the first free proxy in list order, or null. */
    method FindNextAvailableRemoteControl() returns (r: Option<RemoteControlProxy>)
      ensures r.None? <==> FirstFreeIndex(remoteControls, SnapshotOf(remoteControls)).None?
      ensures r.Some? ==> r.value == remoteControls[FirstFreeIndex(remoteControls, SnapshotOf(remoteControls)).value]
    {
      ghost var view := SnapshotOf(remoteControls);
      var i := 0;
      while i < |remoteControls|
        invariant 0 <= i <= |remoteControls|
        invariant forall j :: 0 <= j < i ==> !Free(view, remoteControls[j])
      {
        if remoteControls[i].CanHandleNewSession() {
          return Some(remoteControls[i]);
        }
        i := i + 1;
      }
      return None;
    }

    /**
     * `reserve()`: the first free proxy that passes its health check, now in session;
     * free proxies that fail it are torn down on the way. Null when the list is or
     * becomes empty, or when no proxy is free (the wait times out at once). Only the
     * health-check counters and the reserved proxy's session flag change.
     */
    method Reserve(heartbeat: Heartbeat) returns (r: Option<RemoteControlProxy>)
      requires Valid()
      modifies this`remoteControls, remoteControls`failedHeartbeatCount, remoteControls`sessionInProgress
      ensures Valid()
      ensures Planned(old(remoteControls), old(SnapshotOf(remoteControls)), heartbeat, r, remoteControls)
      ensures r.Some? ==> r.value.sessionInProgress && !old(r.value.sessionInProgress) &&
                          r.value.failedHeartbeatCount == 0
      ensures forall p :: p in old(remoteControls) && r != Some(p) ==> p.sessionInProgress == old(p.sessionInProgress)
      ensures forall p :: p in remoteControls && r != Some(p) ==> p.failedHeartbeatCount == old(p.failedHeartbeatCount)
      ensures FlagsKept(old(remoteControls), old(SnapshotOf(remoteControls)), r)
      ensures CountsKept(remoteControls, old(SnapshotOf(remoteControls)), r)
    {
      ghost var view := SnapshotOf(remoteControls);
      var found := SelectReliable(heartbeat, view);
      if found.None? {
        return None;
      }
      var candidate := found.value;
      var registered := candidate.RegisterNewSession();
      return Some(candidate);
    }

    /**
     * The loop of `reserve()` up to, not including, the reservation itself: wait for a
     * free proxy, check its health, tear it down and start again when it fails.
     */
    method SelectReliable(heartbeat: Heartbeat, ghost view: View) returns (found: Option<RemoteControlProxy>)
      requires Valid() && Agrees(view, remoteControls)
      modifies this`remoteControls, remoteControls`failedHeartbeatCount
      ensures Valid()
      ensures Planned(old(remoteControls), view, heartbeat, found, remoteControls)
      ensures found.Some? ==> found.value.failedHeartbeatCount == 0
      ensures forall p :: p in remoteControls && found != Some(p) ==> StandingOf(p) == StandingIn(view, p)
    {
      ghost var plan := ReservePlan(remoteControls, view, heartbeat);
      found := NextCandidate();
      if found.None? {
        ReserveNoneFree(remoteControls, view, heartbeat);
        return None;
      }
      var candidate := found.value;
      while true
        invariant Valid()
        invariant Agrees(view, remoteControls)
        invariant ReservePlan(remoteControls, view, heartbeat) == plan
        invariant FirstFreeIndex(remoteControls, view).Some?
        invariant candidate == remoteControls[FirstFreeIndex(remoteControls, view).value]
        invariant forall p :: p in remoteControls ==> p in old(remoteControls)
        decreases |remoteControls|
      {
        ghost var i := FirstFreeIndex(remoteControls, view).value;
        assert candidate in old(remoteControls);
        var unreliable: bool;
        unreliable, found := CheckCandidate(candidate, heartbeat, view, i);
        if !unreliable {
          return Some(candidate);
        }
        if found.None? {
          ReserveNoneFree(remoteControls, view, heartbeat);
          return None;
        }
        candidate := found.value;
      }
    }

    /**
     * One pass of the loop in `reserve()`: the health check of the candidate and, when
     * it fails, its tear-down and the next wait for a free proxy.
     */
    method CheckCandidate(candidate: RemoteControlProxy, heartbeat: Heartbeat, ghost view: View, ghost i: nat)
      returns (unreliable: bool, next: Option<RemoteControlProxy>)
      requires Valid() && Agrees(view, remoteControls)
      requires FirstFreeIndex(remoteControls, view) == Some(i) && candidate == remoteControls[i]
      modifies this`remoteControls, candidate`failedHeartbeatCount
      ensures Valid()
      ensures !unreliable ==> ReservePlan(old(remoteControls), view, heartbeat) == (Some(candidate), old(remoteControls))
      ensures unreliable ==> ReservePlan(old(remoteControls), view, heartbeat) == ReservePlan(remoteControls, view, heartbeat)
      ensures forall p :: p in remoteControls ==> p in old(remoteControls)
      ensures unreliable == Unhealthy(view, candidate, heartbeat)
      ensures candidate.failedHeartbeatCount == 0
      ensures !unreliable ==>
                && remoteControls == old(remoteControls)
                && forall p :: p in remoteControls && p != candidate ==> StandingOf(p) == StandingIn(view, p)
      ensures unreliable ==>
                remoteControls == RemoveAt(old(remoteControls), i) && Agrees(view, remoteControls) &&
                (next.None? <==> FirstFreeIndex(remoteControls, view).None?) &&
                (next.Some? ==> next.value == remoteControls[FirstFreeIndex(remoteControls, view).value])
    {
      EvictStep'(remoteControls, view, i);
      if Unhealthy(view, candidate, heartbeat) {
        EvictStep(remoteControls, view, heartbeat, i);
      } else {
        ReserveHealthy(remoteControls, view, heartbeat, i);
      }
      ghost var rest := RemoveAt(remoteControls, i);
      unreliable := candidate.Unreliable(heartbeat);
      assert Agrees(view, rest);
      if !unreliable {
        return unreliable, None;
      }
      var torn := TearDownExistingRemoteControl(candidate);
      next := NextCandidate();
    }

    /**
     * The step `reserve()` takes twice: null for an empty list, otherwise the wait for a
     * free proxy, which finds the first free one or times out at once.
     */
    method NextCandidate() returns (r: Option<RemoteControlProxy>)
      ensures forall view :: Agrees(view, remoteControls) ==>
                (r.None? <==> FirstFreeIndex(remoteControls, view).None?) &&
                (r.Some? ==> r.value == remoteControls[FirstFreeIndex(remoteControls, view).value])
    {
      if remoteControls == [] {
        return None;
      }
      r := FindNextAvailableRemoteControl();
      forall view | Agrees(view, remoteControls)
        ensures (r.None? <==> FirstFreeIndex(remoteControls, view).None?) &&
                (r.Some? ==> r.value == remoteControls[FirstFreeIndex(remoteControls, view).value])
      {
        FirstFreeIndexSameFree(remoteControls, view, SnapshotOf(remoteControls));
      }
    }

    /** `availableRemoteControls()`: a snapshot of the free proxies, in list order. */
    method AvailableRemoteControls() returns (r: seq<RemoteControlProxy>)
      ensures r == FreeOf(remoteControls, SnapshotOf(remoteControls))
    {
      ghost var view := SnapshotOf(remoteControls);
      r := [];
      var i := 0;
      while i < |remoteControls|
        invariant 0 <= i <= |remoteControls|
        invariant r == FreeOf(remoteControls[..i], view)
      {
        assert remoteControls[..i + 1] == remoteControls[..i] + [remoteControls[i]];
        FreeOfConcat(remoteControls[..i], [remoteControls[i]], view);
        if remoteControls[i].CanHandleNewSession() {
          r := r + [remoteControls[i]];
        }
        i := i + 1;
      }
      assert remoteControls[..i] == remoteControls;
    }

    /** `reservedRemoteControls()`: a snapshot of the proxies in session, in list order. */
    method ReservedRemoteControls() returns (r: seq<RemoteControlProxy>)
      ensures r == BusyOf(remoteControls, SnapshotOf(remoteControls))
    {
      ghost var view := SnapshotOf(remoteControls);
      r := [];
      var i := 0;
      while i < |remoteControls|
        invariant 0 <= i <= |remoteControls|
        invariant r == BusyOf(remoteControls[..i], view)
      {
        assert remoteControls[..i + 1] == remoteControls[..i] + [remoteControls[i]];
        BusyOfConcat(remoteControls[..i], [remoteControls[i]], view);
        if remoteControls[i].sessionInProgress {
          r := r + [remoteControls[i]];
        }
        i := i + 1;
      }
      assert remoteControls[..i] == remoteControls;
    }

    /** `allRemoteControls()`: a copy of the whole list. */
    method AllRemoteControls() returns (r: seq<RemoteControlProxy>)
      ensures r == remoteControls
    {
      r := [];
      var i := 0;
      while i < |remoteControls|
        invariant 0 <= i <= |remoteControls|
        invariant r == remoteControls[..i]
      {
        r := r + [remoteControls[i]];
        i := i + 1;
      }
    }
  }
}
