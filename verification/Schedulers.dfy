/** Choosing the next thread: round-robin from the active one, and why nobody waits for ever. */
module Schedulers {
  import opened Wrappers

  /** All threads after the active one, then the others up to and including it. */
  function Candidates(active: nat, n: nat): (order: seq<nat>)
    requires active < n
    ensures |order| == n
  {
    seq(n - active - 1, i requires 0 <= i => active + 1 + i) + seq(active + 1, i requires 0 <= i => i)
  }

  /** The candidates are the thread list rotated; the active thread comes last. */
  lemma CandidatesRotate(active: nat, n: nat)
    requires active < n
    ensures var order := Candidates(active, n);
      && (forall i :: 0 <= i < n ==> order[i] == (active + 1 + i) % n)
      && order[n - 1] == active
      && (forall i, j :: 0 <= i < j < n ==> order[i] != order[j])
      && (forall t: nat :: t < n ==> order[Distance(active, t, n)] == t)
  {
    var order := Candidates(active, n);
    forall i | 0 <= i < n ensures order[i] == (active + 1 + i) % n {
      Wrap(active + 1 + i, n);
    }
  }

  lemma Wrap(x: nat, n: nat)
    requires x < 2 * n
    ensures x % n == if x < n then x else x - n
  {
  }

  /** How many candidates come before thread `t`, of `n` threads. */
  function Distance(active: nat, t: nat, n: nat): (d: nat)
    requires active < n && t < n
    ensures d < n
  {
    if t > active then t - active - 1 else t + n - active - 1
  }

  /** The first enabled thread of a list. */
  function FirstEnabled(order: seq<nat>, enabled: seq<bool>): (r: Option<nat>)
    ensures r.None? <==> forall i :: 0 <= i < |order| ==> !(order[i] < |enabled| && enabled[order[i]])
    ensures r.Some? ==> exists i :: 0 <= i < |order| && FirstAt(order, enabled, i) && order[i] == r.value
  {
    if order == [] then None
    else if order[0] < |enabled| && enabled[order[0]] then
      assert FirstAt(order, enabled, 0);
      Some(order[0])
    else
      var r := FirstEnabled(order[1..], enabled);
      assert r.Some? ==> exists i :: 0 <= i < |order| && FirstAt(order, enabled, i) && order[i] == r.value by {
        if r.Some? {
          var i :| 0 <= i < |order[1..]| && FirstAt(order[1..], enabled, i) && order[1..][i] == r.value;
          assert FirstAt(order, enabled, i + 1) by {
            assert forall j :: 0 < j < i + 1 ==> order[j] == order[1..][j - 1];
          }
        }
      }
      assert forall i :: 0 < i < |order| ==> order[i] == order[1..][i - 1];
      r
  }

  predicate FirstAt(order: seq<nat>, enabled: seq<bool>, i: nat)
    requires i < |order|
  {
    && order[i] < |enabled| && enabled[order[i]]
    && forall j :: 0 <= j < i ==> !(order[j] < |enabled| && enabled[order[j]])
  }

  function NextThread(active: nat, enabled: seq<bool>): Option<nat>
    requires active < |enabled|
  {
    FirstEnabled(Candidates(active, |enabled|), enabled)
  }

  datatype SchedulingAction = ExecuteStep | NothingRunnable

  class ThreadManager {
    var enabled: seq<bool>
    var active: nat
    var yieldActive: bool
    const fixedScheduling: bool

    constructor (enabled: seq<bool>, fixedScheduling: bool)
      requires enabled != []
      ensures this.enabled == enabled && active == 0 && !yieldActive && this.fixedScheduling == fixedScheduling
    {
      this.enabled, active, yieldActive, this.fixedScheduling := enabled, 0, false, fixedScheduling;
    }

    /** Keeps a running thread; else picks the first enabled candidate, or, without fixed scheduling,
        the enabled candidate `chosen` that the random generator points at. */
    method Schedule(chosen: nat) returns (action: SchedulingAction)
      requires active < |enabled|
      requires (exists t :: 0 <= t < |enabled| && enabled[t]) ==> chosen < |enabled| && enabled[chosen]
      modifies this`active, this`yieldActive
      ensures active < |enabled|
      ensures var stay := old(enabled[active] && !yieldActive);
        && (stay ==> active == old(active) && yieldActive == old(yieldActive))
        && (!stay ==> !yieldActive && active == match NextThread(old(active), enabled)
             case None => old(active)
             case Some(t) => if fixedScheduling then t else chosen)
      ensures action == ExecuteStep <==> enabled[active]
      ensures action == NothingRunnable ==> forall t :: 0 <= t < |enabled| ==> !enabled[t]
    {
      if enabled[active] && !yieldActive {
        return ExecuteStep;
      }
      CandidatesRotate(active, |enabled|);
      var newThread := NextThread(active, enabled);
      if !fixedScheduling && newThread.Some? {
        AllAreCandidates(active, enabled);
        newThread := Some(chosen);
      }
      AllAreCandidates(active, enabled);
      if newThread.Some? && active != newThread.value {
        active := newThread.value;
      }
      yieldActive := false;
      if enabled[active] {
        return ExecuteStep;
      }
      return NothingRunnable;
    }
  }

  lemma AllAreCandidates(active: nat, enabled: seq<bool>)
    requires active < |enabled|
    ensures NextThread(active, enabled).None? <==> forall t :: 0 <= t < |enabled| ==> !enabled[t]
    ensures NextThread(active, enabled).Some? ==>
      NextThread(active, enabled).value < |enabled| && enabled[NextThread(active, enabled).value]
  {
    CandidatesRotate(active, |enabled|);
    var order := Candidates(active, |enabled|);
    if NextThread(active, enabled).None? {
      forall t | 0 <= t < |enabled| ensures !enabled[t] {
        assert order[Distance(active, t, |enabled|)] == t;
      }
    }
  }

  // Fairness, also while threads are being added.

  /** A pick is the waiting thread or brings it closer, counted in a list of `n` threads or more. */
  lemma PickAdvances(active: nat, enabled: seq<bool>, t: nat, n: nat)
    requires active < |enabled| <= n && t < |enabled| && enabled[t]
    ensures var p := NextThread(active, enabled);
      p.Some? && p.value < n && (p.value == t || Distance(p.value, t, n) < Distance(active, t, n))
  {
    AllAreCandidates(active, enabled);
    CandidatesRotate(active, |enabled|);
    var order := Candidates(active, |enabled|);
    var i :| 0 <= i < |order| && FirstAt(order, enabled, i) && order[i] == NextThread(active, enabled).value;
    assert order[Distance(active, t, |enabled|)] == t;
    assert i <= Distance(active, t, |enabled|);
  }

  /** The threads picked one after the other, with the threads enabled at each pick. */
  function Picks(active: nat, rounds: seq<seq<bool>>): (r: seq<nat>)
    ensures |r| == |rounds|
    decreases |rounds|
  {
    if rounds == [] then []
    else
      var p := if active < |rounds[0]| then NextThread(active, rounds[0]) else None;
      var next := if p.Some? then p.value else active;
      [next] + Picks(next, rounds[1..])
  }

  /** `t` is enabled at every pick, and the thread list only grows, up to `n` threads. */
  predicate Waits(t: nat, active: nat, n: nat, rounds: seq<seq<bool>>) {
    && (forall k :: 0 <= k < |rounds| ==> active < |rounds[k]| <= n && t < |rounds[k]| && rounds[k][t])
    && (forall j, k :: 0 <= j < k < |rounds| ==> |rounds[j]| <= |rounds[k]|)
  }

  /** A thread that stays enabled is picked within `n` picks, where `n` bounds the number of threads. */
  lemma {:induction false} PickedInTime(t: nat, active: nat, n: nat, rounds: seq<seq<bool>>)
    requires active < n && t < n && Waits(t, active, n, rounds) && |rounds| > Distance(active, t, n)
    ensures exists k :: 0 <= k <= Distance(active, t, n) && Picks(active, rounds)[k] == t
    decreases |rounds|
  {
    PickAdvances(active, rounds[0], t, n);
    var next := NextThread(active, rounds[0]).value;
    AllAreCandidates(active, rounds[0]);
    var all := Picks(active, rounds);
    assert all == [next] + Picks(next, rounds[1..]);
    if next == t {
      assert all[0] == t;
    } else {
      assert next < |rounds[0]|;
      assert Waits(t, next, n, rounds[1..]);
      PickedInTime(t, next, n, rounds[1..]);
      var k :| 0 <= k <= Distance(next, t, n) && Picks(next, rounds[1..])[k] == t;
      assert all[k + 1] == t;
    }
  }
}
