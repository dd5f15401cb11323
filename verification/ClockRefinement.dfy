/** Clocks are happens-before: along every run the detector's clocks and the event sets stand for
    the same positions, and a thread's own timestamp is known to nobody else. */
module ClockRefinement {
  import opened Wrappers
  import opened VectorClocks
  import opened Actions
  import opened ShadowCells
  import D = Detector
  import E = EventSets

  /** The position of the first thread creation, or the length of the trace. */
  function FirstCreate(tr: Trace): (f: nat)
    ensures f <= |tr|
    ensures forall i :: 0 <= i < f ==> !tr[i].Create?
    ensures f < |tr| ==> tr[f].Create?
  {
    if tr == [] then 0
    else
      var f := FirstCreate(tr[..|tr| - 1]);
      if f < |tr| - 1 || tr[|tr| - 1].Create? then f else |tr|
  }

  /** What the invariant is stated against: each position's thread and timestamp, every thread's
      current own timestamp, the position of the first thread creation (or the number of
      positions), how many positions have taken effect, and the thread (if any) that has published
      its current timestamp but not yet moved past it. */
  datatype Context = Context(who: seq<nat>, stamps: seq<nat>, own: seq<nat>, start: nat, done: nat, lag: Option<nat>)

  ghost predicate ValidContext(c: Context) {
    && |c.stamps| == |c.who| && c.done <= |c.who| && c.start <= |c.who|
    && forall i :: 0 <= i < |c.who| ==>
         c.who[i] < |c.own| && c.stamps[i] <= c.own[c.who[i]] && (c.start < i ==> c.stamps[i] >= 1)
  }

  /** Every thread still has the vector index it started with. */
  ghost predicate Tidy(g: D.Globals) {
    && |g.clocks| == |g.threadInfo| == |g.vectorInfo| >= 1
    && (forall t :: 0 <= t < |g.threadInfo| ==> g.threadInfo[t].vectorIndex == Some(t) && g.vectorInfo[t] == t)
    && (forall t :: t in g.reuse <==> D.Terminated(g, t))
  }

  /** Both machines know the same threads, tokens and locations. */
  ghost predicate SameShape(s: D.State, p: E.Sets) {
    && |s.g.threadInfo| == |p.threads| == |p.termination|
    && (forall t :: 0 <= t < |p.threads| ==> (D.Terminated(s.g, t) <==> p.termination[t].Some?))
    && s.tokens.Keys == p.tokens.Keys
    && s.cells.Keys == p.sync.Keys
  }

  ghost function ClockIn(s: D.State, p: E.Sets, slot: E.Slot): VClock
    requires Tidy(s.g) && SameShape(s, p) && E.HasSlot(p, slot)
  {
    match slot
    case OfThread(t) => s.g.clocks[t].clock
    case OfAcquireFence(t) => s.g.clocks[t].fenceAcquire
    case OfReleaseFence(t) => s.g.clocks[t].fenceRelease
    case OfTermination(t) => assert D.Terminated(s.g, t); s.g.threadInfo[t].termination.value
    case OfToken(k) => assert k in p.tokens.Keys; s.tokens[k]
    case OfScFence => s.g.lastScFence
    case OfLocation(loc) => assert loc in p.sync.Keys; SyncVector(s.cells[loc])
  }

  /** Clock `k` and set `m` stand for the same positions after the first thread creation. */
  ghost predicate Agree(c: Context, k: VClock, m: set<nat>)
    requires ValidContext(c)
  {
    && (forall i :: i in m ==> i < |c.who|)
    && forall i :: c.start < i < |c.who| ==> (i in m <==> c.stamps[i] <= At(k, c.who[i]))
  }

  /** Nobody else has seen thread `t`'s current timestamp. */
  predicate Foreign(c: Context, multi: bool, k: VClock, t: nat)
    requires t < |c.own|
  {
    At(k, t) < c.own[t] || (At(k, t) == c.own[t] && (!multi || c.lag == Some(t)))
  }

  ghost predicate Good(c: Context, multi: bool, slot: E.Slot, k: VClock, m: set<nat>)
    requires ValidContext(c)
  {
    && |k| <= |c.own|
    && Agree(c, k, m)
    && (slot.OfThread? ==> slot.t < |c.own| && At(k, slot.t) == c.own[slot.t])
    && (slot.OfThread? ==> forall i :: 0 <= i <= c.start && i < |c.who| ==> i in m && c.stamps[i] <= At(k, c.who[i]))
    && forall t :: 0 <= t < |c.own| && slot != E.OfThread(t) ==> Foreign(c, multi, k, t)
  }

  ghost predicate GoodSlot(c: Context, s: D.State, p: E.Sets, slot: E.Slot)
    requires ValidContext(c) && Tidy(s.g) && SameShape(s, p) && E.HasSlot(p, slot)
  {
    Good(c, s.g.multiThreaded, slot, ClockIn(s, p, slot), E.SetIn(p, slot))
  }

  ghost predicate Inv(c: Context, s: D.State, p: E.Sets) {
    && ValidContext(c)
    && Tidy(s.g)
    && SameShape(s, p)
    && |c.own| == |s.g.clocks|
    && (s.g.multiThreaded <==> c.start < c.done)
    && (!s.g.multiThreaded ==> |c.own| == 1)
    && forall slot :: E.HasSlot(p, slot) ==> GoodSlot(c, s, p, slot)
  }

  // The guards that never pass.

  /** No vector index is ever reused: a terminated thread's last timestamp was never released. */
  lemma NoReuse(c: Context, s: D.State, p: E.Sets, t: nat)
    requires Inv(c, s, p) && c.lag == None && t < |s.g.threadInfo| && !D.Terminated(s.g, t)
    ensures D.ReuseCandidate(s.g) == None
  {
    assert GoodSlot(c, s, p, E.OfThread(t));
    forall u: nat ensures !D.MayReuse(s.g, u) {
      if u in s.g.reuse && u < |s.g.clocks| {
        assert GoodSlot(c, s, p, E.OfThread(u));
        assert u != t && Foreign(c, s.g.multiThreaded, s.g.clocks[t].clock, u);
        assert At(s.g.clocks[t].clock, u) < At(s.g.clocks[u].clock, u) && t !in s.g.reuse;
      }
    }
  }

  /** Joining a thread never switches detection off. */
  lemma NoSwitchOff(c: Context, s: D.State, p: E.Sets, t: nat, joinee: nat)
    requires Inv(c, s, p) && c.lag == None && t < |s.g.threadInfo| && !D.Terminated(s.g, t)
    requires D.Terminated(s.g, joinee)
    ensures !D.MaySwitchOff(D.AcquireInto(s.g, t, s.g.threadInfo[joinee].termination.value), joinee)
  {
    assert GoodSlot(c, s, p, E.OfThread(joinee)) && GoodSlot(c, s, p, E.OfTermination(joinee)) && GoodSlot(c, s, p, E.OfThread(t));
    assert Foreign(c, s.g.multiThreaded, s.g.clocks[joinee].clock, t);
    assert Foreign(c, s.g.multiThreaded, s.g.threadInfo[joinee].termination.value, t);
    var g' := D.AcquireInto(s.g, t, s.g.threadInfo[joinee].termination.value);
    assert g'.clocks[joinee] == s.g.clocks[joinee] && D.ClocksOf(g', joinee) == s.g.clocks[joinee];
    assert At(g'.clocks[t].clock, t) == c.own[t] > At(g'.clocks[joinee].clock, t);
  }

  // Agreement, one clock and one set at a time.

  lemma {:induction false} FirstCreateStep(tr: Trace, a: Action)
    ensures FirstCreate(tr + [a]) == NextStart(FirstCreate(tr), |tr|, a)
  {
    assert (tr + [a])[..|tr|] == tr;
  }

  /** The start after one more position. */
  function NextStart(start: nat, n: nat, a: Action): nat {
    if start < n then start else if a.Create? then n else n + 1
  }

  function Extend(c: Context, a: Action): Context
    requires a.t < |c.own|
  {
    c.(who := c.who + [a.t], stamps := c.stamps + [c.own[a.t]], start := NextStart(c.start, |c.who|, a))
  }

  lemma GoodKept(c: Context, a: Action, multi: bool, slot: E.Slot, k: VClock, m: set<nat>)
    requires ValidContext(c) && c.lag == None && a.t < |c.own| && ValidContext(Extend(c, a))
    requires Good(c, multi, slot, k, m) && slot != E.OfThread(a.t)
    requires multi <==> c.start < |c.who|
    requires !multi ==> |c.own| == 1
    ensures Good(Extend(c, a), multi, slot, k, m)
  {
    assert Foreign(c, multi, k, a.t);
  }

  lemma GoodRecorded(c: Context, a: Action, multi: bool, k: VClock, m: set<nat>)
    requires ValidContext(c) && a.t < |c.own| && ValidContext(Extend(c, a))
    requires Good(c, multi, E.OfThread(a.t), k, m)
    ensures Good(Extend(c, a), multi, E.OfThread(a.t), k, m + {|c.who|})
  {
  }

  /** The interpreter's guarantees say the same about both machines. */
  lemma SameEnabled(s: D.State, p: E.Sets, a: Action)
    requires SameShape(s, p)
    ensures D.Enabled(s, a) <==> E.Enabled(p, a)
  {
    assert a.AcquireClock? || a.ReleaseClock? ==> (a.token in s.tokens <==> a.token in p.tokens.Keys);
    assert IsAccess(a) || a.Allocate? ==> (a.loc in s.cells <==> a.loc in p.sync.Keys);
  }

  lemma Recorded(c: Context, s: D.State, p: E.Sets, a: Action)
    requires Inv(c, s, p) && c.lag == None && c.done == |c.who| && E.Enabled(p, a)
    ensures Inv(Extend(c, a), s, E.Record(p, a.t, |c.who|))
  {
    var p' := E.Record(p, a.t, |c.who|);
    var c' := Extend(c, a);
    assert GoodSlot(c, s, p, E.OfScFence);
    assert Foreign(c, s.g.multiThreaded, s.g.lastScFence, a.t);
    assert ValidContext(c');
    forall slot | E.HasSlot(p', slot) ensures GoodSlot(c', s, p', slot) {
      assert E.HasSlot(p, slot) && GoodSlot(c, s, p, slot);
      var k, m := ClockIn(s, p, slot), E.SetIn(p, slot);
      if slot == E.OfThread(a.t) {
        GoodRecorded(c, a, s.g.multiThreaded, k, m);
      } else {
        GoodKept(c, a, s.g.multiThreaded, slot, k, m);
      }
    }
  }

  // Updating one slot of both machines.

  /** `k` and `m` may be stored anywhere outside the threads' own clocks. */
  ghost predicate Storable(c: Context, multi: bool, k: VClock, m: set<nat>)
    requires ValidContext(c)
  {
    Good(c, multi, E.OfScFence, k, m)
  }

  lemma JoinedGood(c: Context, multi: bool, slot: E.Slot, k: VClock, m: set<nat>, k': VClock, m': set<nat>)
    requires ValidContext(c) && Good(c, multi, slot, k, m) && Storable(c, multi, k', m')
    ensures Good(c, multi, slot, Join(k, k'), m + m')
  {
    forall t | 0 <= t < |c.own| ensures Foreign(c, multi, k', t) {
    }
  }

  lemma EmptyGood(c: Context, multi: bool)
    requires ValidContext(c) && (multi ==> forall t :: 0 <= t < |c.own| ==> c.own[t] >= 1)
    ensures Storable(c, multi, [], {})
  {
  }

  /** Once thread `t` is the lagging one, its own clock may be stored too. */
  lemma OwnStorable(c: Context, multi: bool, t: nat, k: VClock, m: set<nat>)
    requires ValidContext(c) && Good(c, multi, E.OfThread(t), k, m) && c.lag == Some(t)
    ensures Storable(c, multi, k, m)
  {
  }

  lemma SetLag(c: Context, s: D.State, p: E.Sets, t: nat)
    requires Inv(c, s, p) && c.lag == None
    ensures Inv(c.(lag := Some(t)), s, p)
  {
    forall slot | E.HasSlot(p, slot) ensures GoodSlot(c.(lag := Some(t)), s, p, slot) {
      assert GoodSlot(c, s, p, slot);
    }
  }

  function PutThread(s: D.State, t: nat, tc: ThreadClocks): D.State
    requires t < |s.g.clocks|
  {
    s.(g := s.g.(clocks := s.g.clocks[t := tc]))
  }

  lemma PutThreadInv(c: Context, s: D.State, p: E.Sets, t: nat, tc: ThreadClocks, ts: E.ThreadSets)
    requires Inv(c, s, p) && t < |c.own|
    requires Good(c, s.g.multiThreaded, E.OfThread(t), tc.clock, ts.past)
    requires Storable(c, s.g.multiThreaded, tc.fenceAcquire, ts.fenceAcquire)
    requires Storable(c, s.g.multiThreaded, tc.fenceRelease, ts.fenceRelease)
    ensures Inv(c, PutThread(s, t, tc), p.(threads := p.threads[t := ts]))
  {
    var s', p' := PutThread(s, t, tc), p.(threads := p.threads[t := ts]);
    forall slot | E.HasSlot(p', slot) ensures GoodSlot(c, s', p', slot) {
      assert E.HasSlot(p, slot) && GoodSlot(c, s, p, slot);
    }
  }

  lemma PutTokenInv(c: Context, s: D.State, p: E.Sets, token: nat, k: VClock, m: set<nat>)
    requires Inv(c, s, p) && Storable(c, s.g.multiThreaded, k, m)
    ensures Inv(c, s.(tokens := s.tokens[token := k]), p.(tokens := p.tokens[token := m]))
  {
    var s', p' := s.(tokens := s.tokens[token := k]), p.(tokens := p.tokens[token := m]);
    assert s'.tokens.Keys == s.tokens.Keys + {token} && p'.tokens.Keys == p.tokens.Keys + {token};
    forall slot | E.HasSlot(p', slot) ensures GoodSlot(c, s', p', slot) {
      assert slot != E.OfToken(token) ==> E.HasSlot(p, slot) && GoodSlot(c, s, p, slot);
    }
  }

  lemma PutScFenceInv(c: Context, s: D.State, p: E.Sets, k: VClock, m: set<nat>)
    requires Inv(c, s, p) && Storable(c, s.g.multiThreaded, k, m)
    ensures Inv(c, s.(g := s.g.(lastScFence := k)), p.(lastScFence := m))
  {
    var s', p' := s.(g := s.g.(lastScFence := k)), p.(lastScFence := m);
    forall slot | E.HasSlot(p', slot) ensures GoodSlot(c, s', p', slot) {
      assert E.HasSlot(p, slot) && GoodSlot(c, s, p, slot);
    }
  }

  lemma PutCellInv(c: Context, s: D.State, p: E.Sets, loc: nat, cell: Cell, m: set<nat>)
    requires Inv(c, s, p) && Storable(c, s.g.multiThreaded, SyncVector(cell), m)
    ensures Inv(c, s.(cells := s.cells[loc := cell]), p.(sync := p.sync[loc := m]))
  {
    var s', p' := s.(cells := s.cells[loc := cell]), p.(sync := p.sync[loc := m]);
    assert s'.cells.Keys == s.cells.Keys + {loc} && p'.sync.Keys == p.sync.Keys + {loc};
    forall slot | E.HasSlot(p', slot) ensures GoodSlot(c, s', p', slot) {
      assert slot != E.OfLocation(loc) ==> E.HasSlot(p, slot) && GoodSlot(c, s, p, slot);
    }
  }

  function PutTermination(s: D.State, t: nat, k: VClock): D.State
    requires t < |s.g.threadInfo|
  {
    s.(g := s.g.(threadInfo := s.g.threadInfo[t := s.g.threadInfo[t].(termination := Some(k))], reuse := s.g.reuse + {t}))
  }

  lemma PutTerminationInv(c: Context, s: D.State, p: E.Sets, t: nat, k: VClock, m: set<nat>)
    requires Inv(c, s, p) && t < |p.termination| && Storable(c, s.g.multiThreaded, k, m)
    ensures Inv(c, PutTermination(s, t, k), p.(termination := p.termination[t := Some(m)]))
  {
    var s', p' := PutTermination(s, t, k), p.(termination := p.termination[t := Some(m)]);
    assert forall u :: u in s'.g.reuse <==> D.Terminated(s'.g, u) by {
      assert forall u :: u in s.g.reuse <==> D.Terminated(s.g, u);
    }
    forall slot | E.HasSlot(p', slot) ensures GoodSlot(c, s', p', slot) {
      assert slot != E.OfTermination(t) ==> E.HasSlot(p, slot) && GoodSlot(c, s, p, slot);
    }
  }

  function Tick(s: D.State, t: nat): D.State
    requires t < |s.g.clocks|
  {
    PutThread(s, t, s.g.clocks[t].(clock := Increment(s.g.clocks[t].clock, t)))
  }

  function Ticked(c: Context, t: nat): Context
    requires t < |c.own|
  {
    c.(own := c.own[t := c.own[t] + 1], lag := None)
  }

  lemma TickGood(c: Context, multi: bool, t: nat, slot: E.Slot, k: VClock, m: set<nat>)
    requires ValidContext(c) && t < |c.own| && (c.lag == None || c.lag == Some(t))
    requires Good(c, multi, slot, k, m)
    ensures ValidContext(Ticked(c, t))
    ensures slot != E.OfThread(t) ==> Good(Ticked(c, t), multi, slot, k, m)
    ensures slot == E.OfThread(t) ==> Good(Ticked(c, t), multi, slot, Increment(k, t), m)
  {
    assert forall i :: 0 <= i < |c.who| ==> c.who[i] < |c.own| && c.stamps[i] <= c.own[c.who[i]];
    forall u | 0 <= u < |c.own| && slot != E.OfThread(u) ensures Foreign(Ticked(c, t), multi, k, u) {
      assert Foreign(c, multi, k, u);
    }
  }

  lemma TickInv(c: Context, s: D.State, p: E.Sets, t: nat)
    requires Inv(c, s, p) && t < |c.own| && (c.lag == None || c.lag == Some(t))
    ensures Inv(Ticked(c, t), Tick(s, t), p)
  {
    var s', c' := Tick(s, t), Ticked(c, t);
    assert GoodSlot(c, s, p, E.OfThread(t));
    TickGood(c, s.g.multiThreaded, t, E.OfThread(t), s.g.clocks[t].clock, p.threads[t].past);
    forall slot | E.HasSlot(p, slot) ensures GoodSlot(c', s', p, slot) {
      assert GoodSlot(c, s, p, slot);
      TickGood(c, s.g.multiThreaded, t, slot, ClockIn(s, p, slot), E.SetIn(p, slot));
    }
  }
}
