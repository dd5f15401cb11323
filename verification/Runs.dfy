/** Runs of the detector from its initial state, and what the clocks mean in every reachable state. */
module Runs {
  import opened Wrappers
  import opened VectorClocks
  import opened Actions
  import opened ClockRefinement
  import opened ClockSteps
  import opened HappensBefore
  import opened SetsAreHappensBefore
  import D = Detector
  import E = EventSets

  /** The detector after a trace. */
  ghost function Run(tr: seq<Action>): D.State {
    if tr == [] then D.INITIAL
    else
      var s, a := Run(tr[..|tr| - 1]), tr[|tr| - 1];
      if D.Enabled(s, a) then D.Step(s, a).state else s
  }

  /** The detector's verdict on one more step. */
  ghost predicate Accepts(s: D.State, a: Action) {
    D.Enabled(s, a) ==> D.Step(s, a).ok
  }

  /** No step of the trace was reported as a race. */
  ghost predicate Passes(tr: seq<Action>) {
    tr == [] || (Passes(tr[..|tr| - 1]) && Accepts(Run(tr[..|tr| - 1]), tr[|tr| - 1]))
  }

  /** The own timestamp of each position's thread when it acted. */
  ghost function Stamps(tr: seq<Action>): (st: seq<nat>)
    ensures |st| == |tr|
  {
    if tr == [] then []
    else
      var g, t := Run(tr[..|tr| - 1]).g, tr[|tr| - 1].t;
      Stamps(tr[..|tr| - 1]) + [OwnStamp(g, t)]
  }

  lemma {:induction false} RunExtend(tr: seq<Action>, a: Action)
    ensures Run(tr + [a]) == if D.Enabled(Run(tr), a) then D.Step(Run(tr), a).state else Run(tr)
    ensures Passes(tr + [a]) <==> Passes(tr) && Accepts(Run(tr), a)
    ensures Stamps(tr + [a]) == Stamps(tr) + [OwnStamp(Run(tr).g, a.t)]
  {
    assert (tr + [a])[..|tr|] == tr;
  }

  function OwnStamp(g: D.Globals, t: nat): nat {
    At(D.ClocksOf(g, t).clock, D.ThreadIndex(g, t))
  }

  /** Each position's thread. */
  function Who(tr: seq<Action>): (w: seq<nat>)
    ensures |w| == |tr| && forall i :: 0 <= i < |tr| ==> w[i] == tr[i].t
  {
    seq(|tr|, i requires 0 <= i < |tr| => tr[i].t)
  }

  lemma SettledStep(who: seq<nat>, st: seq<nat>, start: nat, s: D.State, p: E.Sets, a: Action)
    requires Settled(who, st, start, s, p) && E.Enabled(p, a) && Accepts(s, a)
    ensures D.Enabled(s, a)
    ensures Settled(who + [a.t], st + [OwnStamp(s.g, a.t)], NextStart(start, |who|, a), D.Step(s, a).state, E.Step(p, |who|, a))
  {
    var own: seq<nat> :| Inv(Context(who, st, own, start, |who|, None), s, p);
    var c := Context(who, st, own, start, |who|, None);
    SameEnabled(s, p, a);
    ThreadSlots(c, s, p, a.t);
    assert own[a.t] == OwnStamp(s.g, a.t);
    StepSettles(c, s, p, a);
  }

  /** What the invariant says of one slot. */
  lemma SettledSlot(who: seq<nat>, st: seq<nat>, start: nat, s: D.State, p: E.Sets, slot: E.Slot)
    requires Settled(who, st, start, s, p) && E.HasSlot(p, slot)
    ensures |st| == |who| && start <= |who| && Tidy(s.g) && SameShape(s, p) && (s.g.multiThreaded <==> start < |who|)
    ensures start == |who| ==> |p.threads| == 1
    ensures forall i :: 0 <= i < |who| ==> who[i] < |p.threads| && st[i] <= OwnStamp(s.g, who[i])
    ensures forall i :: start < i < |who| ==>
      (i in E.SetIn(p, slot) <==> st[i] <= At(ClockIn(s, p, slot), who[i]))
    ensures slot.OfThread? ==> forall i :: 0 <= i <= start && i < |who| ==>
      i in E.SetIn(p, slot) && st[i] <= At(ClockIn(s, p, slot), who[i])
    ensures start < |who| ==>
      forall t :: 0 <= t < |p.threads| && slot != E.OfThread(t) ==> At(ClockIn(s, p, slot), t) < OwnStamp(s.g, t)
  {
    var own: seq<nat> :| Inv(Context(who, st, own, start, |who|, None), s, p);
    var c := Context(who, st, own, start, |who|, None);
    assert GoodSlot(c, s, p, slot);
    forall i | 0 <= i < |who| ensures who[i] < |p.threads| && st[i] <= OwnStamp(s.g, who[i]) {
      ThreadSlots(c, s, p, who[i]);
    }
    forall t | 0 <= t < |p.threads| && slot != E.OfThread(t) && start < |who|
      ensures At(ClockIn(s, p, slot), t) < OwnStamp(s.g, t)
    {
      ThreadSlots(c, s, p, t);
      assert Foreign(c, true, ClockIn(s, p, slot), t);
    }
  }

  /** Thread `t` can neither reuse a vector index for a new thread nor switch detection off by joining. */
  ghost predicate GuardsShut(g: D.Globals, t: nat) {
    && D.ReuseCandidate(g) == None
    && forall joinee: nat :: D.Terminated(g, joinee) ==>
         !D.MaySwitchOff(D.AcquireInto(g, t, g.threadInfo[joinee].termination.value), joinee)
  }

  lemma SettledGuards(who: seq<nat>, st: seq<nat>, start: nat, s: D.State, p: E.Sets, t: nat)
    requires Settled(who, st, start, s, p) && t < |p.termination| && p.termination[t].None?
    ensures GuardsShut(s.g, t)
  {
    var own: seq<nat> :| Inv(Context(who, st, own, start, |who|, None), s, p);
    var c := Context(who, st, own, start, |who|, None);
    NoReuse(c, s, p, t);
    forall joinee: nat | D.Terminated(s.g, joinee)
      ensures !D.MaySwitchOff(D.AcquireInto(s.g, t, s.g.threadInfo[joinee].termination.value), joinee)
    {
      NoSwitchOff(c, s, p, t, joinee);
    }
  }

  /** A run and its last step. */
  lemma {:induction false} LastRun(tr: seq<Action>) returns (pre: seq<Action>, a: Action)
    requires E.WellFormed(tr) && Passes(tr) && |tr| > 0
    ensures tr == pre + [a] && E.WellFormed(pre) && Passes(pre) && E.Enabled(E.Run(pre), a) && Accepts(Run(pre), a)
  {
    pre, a := E.SplitLast(tr);
    E.RunExtend(pre, a);
    RunExtend(pre, a);
  }

  lemma WhoExtend(tr: seq<Action>, a: Action)
    ensures Who(tr + [a]) == Who(tr) + [a.t]
  {
  }

  lemma {:induction false} RunSettlesStep(pre: seq<Action>, a: Action, tr: seq<Action>)
    requires tr == pre + [a] && E.WellFormed(tr) && E.Enabled(E.Run(pre), a) && Accepts(Run(pre), a)
    requires Settled(Who(pre), Stamps(pre), FirstCreate(pre), Run(pre), E.Run(pre))
    ensures Settled(Who(tr), Stamps(tr), FirstCreate(tr), Run(tr), E.Run(tr))
  {
    SettledStep(Who(pre), Stamps(pre), FirstCreate(pre), Run(pre), E.Run(pre), a);
    E.RunExtend(pre, a);
    RunExtend(pre, a);
    FirstCreateStep(pre, a);
    WhoExtend(pre, a);
  }

  /** The invariant of `ClockRefinement` holds after every run without a reported race. */
  lemma {:induction false} RunSettles(tr: seq<Action>)
    requires E.WellFormed(tr) && Passes(tr)
    ensures Settled(Who(tr), Stamps(tr), FirstCreate(tr), Run(tr), E.Run(tr))
    decreases |tr|
  {
    if |tr| == 0 {
      Start();
      assert Who(tr) == [];
    } else {
      var pre, a := LastRun(tr);
      RunSettles(pre);
      RunSettlesStep(pre, a, tr);
    }
  }

  lemma Start()
    ensures Settled([], [], 0, D.INITIAL, E.START)
  {
    var c := Context([], [], [0], 0, 0, None);
    forall slot | E.HasSlot(E.START, slot) ensures GoodSlot(c, D.INITIAL, E.START, slot) {
    }
    assert Inv(c, D.INITIAL, E.START);
  }

  lemma ClockReaches(tr: seq<Action>, hb: seq<set<nat>>, st: seq<nat>, start: nat, s: D.State, p: E.Sets, slot: E.Slot, i: nat)
    requires Settled(Who(tr), st, start, s, p) && MatchesAt(tr, hb, p, i) && E.HasSlot(p, slot)
    ensures |st| == |tr| && Tidy(s.g) && SameShape(s, p)
    ensures start < i < |tr| ==> (st[i] <= At(ClockIn(s, p, slot), tr[i].t) <==> Reaches(tr, hb, slot, i))
    ensures i <= start && i < |tr| && slot.OfThread? ==> Reaches(tr, hb, slot, i)
  {
    SettledSlot(Who(tr), st, start, s, p, slot);
    assert i in E.SetIn(p, slot) <==> Reaches(tr, hb, slot, i);
  }

  /** Clocks are happens-before, in every slot that holds one: for every position after the first
      thread creation, its timestamp is covered by the slot's clock exactly when the position is in
      the past that the declared edges give to the slot. */
  lemma {:induction false} ClockIsHappensBefore(tr: seq<Action>, slot: E.Slot, i: nat)
    requires E.WellFormed(tr) && Passes(tr) && E.HasSlot(E.Run(tr), slot)
    requires FirstCreate(tr) < i < |tr|
    ensures SameShape(Run(tr), E.Run(tr)) && Tidy(Run(tr).g)
    ensures Stamps(tr)[i] <= At(ClockIn(Run(tr), E.Run(tr), slot), tr[i].t) <==> Reaches(tr, Hb(tr), slot, i)
  {
    RunSettles(tr);
    SetsMatch(tr);
    ClockReaches(tr, Hb(tr), Stamps(tr), FirstCreate(tr), Run(tr), E.Run(tr), slot, i);
  }

  /** Whatever came before the first thread creation is in every thread's past. */
  lemma {:induction false} EarlyIsEverywhere(tr: seq<Action>, t: nat, i: nat)
    requires E.WellFormed(tr) && Passes(tr) && t < |E.Run(tr).threads|
    requires i <= FirstCreate(tr) && i < |tr|
    ensures Reaches(tr, Hb(tr), E.OfThread(t), i)
  {
    RunSettles(tr);
    SetsMatch(tr);
    ClockReaches(tr, Hb(tr), Stamps(tr), FirstCreate(tr), Run(tr), E.Run(tr), E.OfThread(t), i);
  }

  /** Once a second thread exists, no other thread, fence, termination, token, location or SC-fence
      clock has reached a thread's current own timestamp. */
  lemma {:induction false} OwnTimestampIsPrivate(tr: seq<Action>, slot: E.Slot, t: nat)
    requires E.WellFormed(tr) && Passes(tr) && FirstCreate(tr) < |tr|
    requires E.HasSlot(E.Run(tr), slot) && t < |E.Run(tr).threads| && slot != E.OfThread(t)
    ensures SameShape(Run(tr), E.Run(tr)) && Tidy(Run(tr).g)
    ensures At(ClockIn(Run(tr), E.Run(tr), slot), t) < OwnStamp(Run(tr).g, t)
  {
    RunSettles(tr);
    SettledSlot(Who(tr), Stamps(tr), FirstCreate(tr), Run(tr), E.Run(tr), slot);
  }

  /** In no reachable state does the detector reuse a vector index or switch itself off. */
  lemma {:induction false} GuardsNeverPass(tr: seq<Action>, t: nat)
    requires E.WellFormed(tr) && Passes(tr) && t < |E.Run(tr).termination| && E.Run(tr).termination[t].None?
    ensures GuardsShut(Run(tr).g, t)
  {
    RunSettles(tr);
    SettledGuards(Who(tr), Stamps(tr), FirstCreate(tr), Run(tr), E.Run(tr), t);
  }
}
