/** One timestamp stands for a whole clock: a clock that has reached a thread's timestamp at some
    step covers everything which that thread knew at that step. This is why shadow cells may store
    a single timestamp per access. */
module ClockDomination {
  import opened Wrappers
  import opened VectorClocks
  import opened Actions
  import opened ShadowCells
  import opened ClockRefinement
  import opened ClockSteps
  import opened Runs
  import D = Detector
  import E = EventSets

  /** For every position of a trace: its thread, and that thread's timestamp and clock there. */
  datatype Log = Log(who: seq<nat>, stamps: seq<nat>, clocks: seq<VClock>, start: nat)

  predicate ValidLog(l: Log) {
    |l.who| == |l.stamps| == |l.clocks| && forall i :: l.start < i < |l.who| ==> l.stamps[i] >= 1
  }

  /** Clock `k` covers the whole clock of every position whose timestamp it has reached. */
  predicate Dominates(l: Log, k: VClock)
    requires ValidLog(l)
  {
    forall i :: l.start < i < |l.who| && l.stamps[i] <= At(k, l.who[i]) ==> Leq(l.clocks[i], k)
  }

  predicate ThreadDominates(l: Log, tc: ThreadClocks)
    requires ValidLog(l)
  {
    Dominates(l, tc.clock) && Dominates(l, tc.fenceAcquire) && Dominates(l, tc.fenceRelease)
  }

  /** Every clock of a state does. */
  ghost predicate AllDominate(l: Log, s: D.State)
    requires ValidLog(l)
  {
    && (forall t :: 0 <= t < |s.g.clocks| ==> ThreadDominates(l, s.g.clocks[t]))
    && (forall t :: 0 <= t < |s.g.threadInfo| && s.g.threadInfo[t].termination.Some? ==>
          Dominates(l, s.g.threadInfo[t].termination.value))
    && (forall k :: k in s.tokens ==> Dominates(l, s.tokens[k]))
    && (forall loc :: loc in s.cells ==> Dominates(l, SyncVector(s.cells[loc])))
    && Dominates(l, s.g.lastScFence)
  }

  /** No position has a later timestamp than its thread has now. */
  ghost predicate OwnBound(l: Log, s: D.State)
    requires ValidLog(l)
  {
    forall i :: 0 <= i < |l.who| ==>
      l.who[i] < |s.g.clocks| && l.stamps[i] <= At(s.g.clocks[l.who[i]].clock, l.who[i])
  }

  // What keeps domination.

  lemma EmptyDominates(l: Log)
    requires ValidLog(l)
    ensures Dominates(l, [])
  {
  }

  lemma LeqTrans(a: VClock, b: VClock, c: VClock)
    requires Leq(a, b) && Leq(b, c)
    ensures Leq(a, c)
  {
  }

  lemma JoinDominates(l: Log, a: VClock, b: VClock)
    requires ValidLog(l) && Dominates(l, a) && Dominates(l, b)
    ensures Dominates(l, Join(a, b))
  {
    JoinIsLeastUpperBound(a, b, Join(a, b));
    forall i | l.start < i < |l.who| && l.stamps[i] <= At(Join(a, b), l.who[i]) ensures Leq(l.clocks[i], Join(a, b)) {
      if l.stamps[i] <= At(a, l.who[i]) {
        LeqTrans(l.clocks[i], a, Join(a, b));
      } else {
        LeqTrans(l.clocks[i], b, Join(a, b));
      }
    }
  }

  lemma TickDominates(l: Log, k: VClock, t: nat)
    requires ValidLog(l) && Dominates(l, k)
    requires forall i :: 0 <= i < |l.who| && l.who[i] == t ==> l.stamps[i] <= At(k, t)
    ensures Dominates(l, Increment(k, t))
  {
    var k' := Increment(k, t);
    LeqPointwise(k, k');
    assert forall i: nat :: At(k, i) <= At(k', i);
    forall i | l.start < i < |l.who| && l.stamps[i] <= At(k', l.who[i]) ensures Leq(l.clocks[i], k') {
      assert l.stamps[i] <= At(k, l.who[i]);
      LeqTrans(l.clocks[i], k, k');
    }
  }

  lemma Ticks(l: Log, s: D.State, t: nat)
    requires ValidLog(l) && AllDominate(l, s) && t < |s.g.clocks|
    requires forall i :: 0 <= i < |l.who| && l.who[i] == t ==> l.stamps[i] <= At(s.g.clocks[t].clock, t)
    ensures AllDominate(l, Tick(s, t))
  {
    TickDominates(l, s.g.clocks[t].clock, t);
  }

  lemma AcquiresDominate(l: Log, tc: ThreadClocks, k: VClock, acquire: bool)
    requires ValidLog(l) && ThreadDominates(l, tc) && Dominates(l, k)
    ensures ThreadDominates(l, AcquiredClocks(tc, k, acquire))
  {
    JoinDominates(l, tc.clock, k);
    JoinDominates(l, tc.fenceAcquire, k);
  }

  lemma AcquiresState(l: Log, s: D.State, t: nat, k: VClock)
    requires ValidLog(l) && AllDominate(l, s) && Tidy(s.g) && t < |s.g.clocks| && Dominates(l, k)
    ensures AllDominate(l, s.(g := D.AcquireInto(s.g, t, k)))
  {
    JoinDominates(l, s.g.clocks[t].clock, k);
  }

  /** After an atomic access: new clocks, a new synchronization clock, and a tick. */
  lemma AtomicDominates(l: Log, s: D.State, t: nat, loc: nat, r: OpResult)
    requires ValidLog(l) && AllDominate(l, s) && Tidy(s.g) && t < |s.g.clocks| && OwnBound(l, s)
    requires r.ok && ThreadDominates(l, r.clocks) && Dominates(l, SyncVector(r.cell))
    requires At(r.clocks.clock, t) >= At(s.g.clocks[t].clock, t)
    ensures AllDominate(l, D.FinishAtomic(s, t, loc, r).state)
  {
    var s1 := PutThread(s, t, r.clocks);
    var s2 := s1.(cells := s1.cells[loc := r.cell]);
    assert AllDominate(l, s2);
    Ticks(l, s2, t);
    assert D.FinishAtomic(s, t, loc, r).state == Tick(s2, t);
  }

  // Every step.

  ghost predicate Going(l: Log, s: D.State, a: Action) {
    && ValidLog(l) && AllDominate(l, s) && OwnBound(l, s)
    && Tidy(s.g) && D.Enabled(s, a) && D.Step(s, a).ok
  }

  lemma AccessDominates(l: Log, s: D.State, a: Action)
    requires Going(l, s, a) && IsAtomic(a) && s.g.multiThreaded
    ensures AllDominate(l, D.Step(s, a).state)
  {
    var tc, cell := s.g.clocks[a.t], s.cells[a.loc];
    var r := CellAccess(cell, tc, a);
    AccessSteps(s, a);
    ClocksDominate(l, tc, cell, a);
    AtomicDominates(l, s, a.t, a.loc, r);
  }

  /** What an accepted atomic access makes of the clocks it works on. */
  lemma ClocksDominate(l: Log, tc: ThreadClocks, cell: Cell, a: Action)
    requires ValidLog(l) && ThreadDominates(l, tc) && Dominates(l, SyncVector(cell))
    requires IsAtomic(a) && CellAccess(cell, tc, a).ok
    ensures var r := CellAccess(cell, tc, a);
      ThreadDominates(l, r.clocks) && Dominates(l, SyncVector(r.cell)) && At(r.clocks.clock, a.t) >= At(tc.clock, a.t)
  {
    AccessSyncs(cell, tc, a);
    if Reads(a) {
      AcquiresDominate(l, tc, SyncVector(cell), IsAcquire(a));
    }
    if a.Rmw? {
      var tc' := AcquiredClocks(tc, SyncVector(cell), RwAcquires(a.aord));
      JoinDominates(l, SyncVector(cell), PublishedClock(tc', RwReleases(a.aord)));
    }
  }

  lemma FencedClockDominates(l: Log, tc: ThreadClocks, sc: VClock, ord: FenceOrd)
    requires ValidLog(l) && ThreadDominates(l, tc) && Dominates(l, sc)
    ensures var k := D.Fenced(tc, sc, ord);
      Dominates(l, k.0.clock) && Dominates(l, k.1) && forall t: nat :: At(k.0.clock, t) >= At(tc.clock, t)
  {
    JoinDominates(l, tc.clock, tc.fenceAcquire);
    var k := if ord != ReleaseFence then Join(tc.clock, tc.fenceAcquire) else tc.clock;
    JoinDominates(l, sc, k);
    JoinDominates(l, k, if ord == SeqCstFence then Join(sc, k) else sc);
  }

  lemma ReleasesFence(l: Log, s: D.State, t: nat, k: VClock, sc: VClock)
    requires ValidLog(l) && AllDominate(l, s) && OwnBound(l, s) && t < |s.g.clocks|
    requires Dominates(l, k) && Dominates(l, sc) && At(k, t) >= At(s.g.clocks[t].clock, t)
    ensures AllDominate(l, FencedState(s, t, k, sc))
  {
    var s1 := PutThread(s, t, s.g.clocks[t].(clock := k, fenceRelease := k));
    var s2 := s1.(g := s1.g.(lastScFence := sc));
    assert AllDominate(l, s2);
    Ticks(l, s2, t);
  }

  lemma FenceDominates(l: Log, s: D.State, a: Action)
    requires Going(l, s, a) && a.Fence? && s.g.multiThreaded
    ensures AllDominate(l, D.Step(s, a).state)
  {
    var t, tc := a.t, s.g.clocks[a.t];
    if a.ford == AcquireFence {
      AcquiresState(l, s, t, tc.fenceAcquire);
      assert D.Step(s, a).state == s.(g := D.AcquireInto(s.g, t, tc.fenceAcquire));
    } else {
      var k := D.Fenced(tc, s.g.lastScFence, a.ford);
      FencedClockDominates(l, tc, s.g.lastScFence, a.ford);
      ReleasesFence(l, s, t, k.0.clock, k.1);
      StepFences(s, a);
    }
  }

  lemma CreatedDominate(l: Log, s: D.State, t: nat)
    requires ValidLog(l) && AllDominate(l, s) && OwnBound(l, s) && t < |s.g.clocks| == |s.g.threadInfo|
    ensures AllDominate(l, CreatedState(s, t))
  {
    var k, n := s.g.clocks[t].clock, |s.g.clocks|;
    EmptyDominates(l);
    TickDominates(l, k, t);
    JoinDominates(l, [], k);
    TickDominates(l, Join([], k), n);
    var s' := CreatedState(s, t);
    forall u | 0 <= u < |s'.g.clocks| ensures ThreadDominates(l, s'.g.clocks[u]) {
      assert u < n && u != t ==> s'.g.clocks[u] == s.g.clocks[u];
    }
    forall u | 0 <= u < |s'.g.threadInfo| && s'.g.threadInfo[u].termination.Some?
      ensures Dominates(l, s'.g.threadInfo[u].termination.value)
    {
      assert s'.g.threadInfo[u] == s.g.threadInfo[u];
    }
  }

  /** Steps that publish the thread's clock and then tick. */
  lemma PublishDominates(l: Log, s: D.State, a: Action)
    requires Going(l, s, a) && (a.Terminate? || a.ReleaseClock?)
    ensures AllDominate(l, D.Step(s, a).state)
  {
    var t, k := a.t, s.g.clocks[a.t].clock;
    var s1 := if a.Terminate? then PutTermination(s, t, k) else s.(tokens := s.tokens[a.token := k]);
    assert AllDominate(l, s1);
    Ticks(l, s1, t);
    assert D.Step(s, a).state == Tick(s1, t);
  }

  lemma CellDominates(l: Log, s: D.State, loc: nat, cell: Cell)
    requires ValidLog(l) && AllDominate(l, s) && Dominates(l, SyncVector(cell))
    ensures AllDominate(l, s.(cells := s.cells[loc := cell]))
  {
  }

  lemma AllocateDominates(l: Log, s: D.State, a: Action)
    requires Going(l, s, a) && a.Allocate?
    ensures AllDominate(l, D.Step(s, a).state)
  {
    EmptyDominates(l);
    var cell := D.Step(s, a).state.cells[a.loc];
    assert D.Step(s, a).state == s.(cells := s.cells[a.loc := cell]);
    CellDominates(l, s, a.loc, cell);
  }

  /** Non-atomic accesses publish nothing. */
  lemma PlainCell(l: Log, tc: ThreadClocks, cell: Cell, a: Action)
    requires ValidLog(l) && Dominates(l, SyncVector(cell)) && (a.NaRead? || a.NaWrite?) && CellAccess(cell, tc, a).ok
    ensures Dominates(l, SyncVector(CellAccess(cell, tc, a).cell))
  {
    EmptyDominates(l);
    AccessSyncs(cell, tc, a);
  }

  lemma FinishDominates(l: Log, s: D.State, loc: nat, r: OpResult)
    requires ValidLog(l) && AllDominate(l, s) && Dominates(l, SyncVector(r.cell))
    ensures AllDominate(l, D.FinishNonAtomic(s, loc, r).state)
  {
    CellDominates(l, s, loc, r.cell);
  }

  lemma SameDominates(l: Log, s: D.State, s': D.State)
    requires ValidLog(l) && AllDominate(l, s) && s == s'
    ensures AllDominate(l, s')
  {
  }

  lemma PlainReady(l: Log, s: D.State, a: Action)
    requires Going(l, s, a) && (a.NaRead? || a.NaWrite?) && s.g.multiThreaded
    ensures D.Step(s, a) == D.FinishNonAtomic(s, a.loc, CellAccess(s.cells[a.loc], s.g.clocks[a.t], a))
    ensures Dominates(l, SyncVector(CellAccess(s.cells[a.loc], s.g.clocks[a.t], a).cell))
  {
    AccessSteps(s, a);
    PlainCell(l, s.g.clocks[a.t], s.cells[a.loc], a);
  }

  lemma PlainDominates(l: Log, s: D.State, a: Action)
    requires Going(l, s, a) && (a.NaRead? || a.NaWrite?) && s.g.multiThreaded
    ensures AllDominate(l, D.Step(s, a).state)
  {
    var r := CellAccess(s.cells[a.loc], s.g.clocks[a.t], a);
    PlainReady(l, s, a);
    FinishDominates(l, s, a.loc, r);
    SameDominates(l, D.FinishNonAtomic(s, a.loc, r).state, D.Step(s, a).state);
  }

  lemma StepDominates(l: Log, s: D.State, p: E.Sets, a: Action)
    requires Going(l, s, a) && SameShape(s, p) && D.ReuseCandidate(s.g) == None
    ensures AllDominate(l, D.Step(s, a).state)
  {
    match a
    case Create(t, _) =>
      StepCreates(s, p, a);
      CreatedDominate(l, s, t);
    case Terminate(_) => PublishDominates(l, s, a);
    case ReleaseClock(_, _) => PublishDominates(l, s, a);
    case JoinThread(t, joinee) => AcquiresState(l, s, t, s.g.threadInfo[joinee].termination.value);
    case AcquireClock(t, token) => AcquiresState(l, s, t, s.tokens[token]);
    case Fence(_, _) =>
      if s.g.multiThreaded {
        FenceDominates(l, s, a);
      }
    case Allocate(_, _, _) => AllocateDominates(l, s, a);
    case _ =>
      if s.g.multiThreaded {
        if IsAtomic(a) { AccessDominates(l, s, a); } else { PlainDominates(l, s, a); }
      }
  }

  // Recording a position.

  /** No clock but thread `t`'s own has reached `t`'s timestamp. */
  ghost predicate Private(s: D.State, t: nat)
    requires t < |s.g.clocks|
  {
    var own := At(s.g.clocks[t].clock, t);
    && (forall u :: 0 <= u < |s.g.clocks| ==>
          (u != t ==> At(s.g.clocks[u].clock, t) < own) &&
          At(s.g.clocks[u].fenceAcquire, t) < own && At(s.g.clocks[u].fenceRelease, t) < own)
    && (forall u :: 0 <= u < |s.g.threadInfo| && s.g.threadInfo[u].termination.Some? ==>
          At(s.g.threadInfo[u].termination.value, t) < own)
    && (forall k :: k in s.tokens ==> At(s.tokens[k], t) < own)
    && (forall loc :: loc in s.cells ==> At(SyncVector(s.cells[loc]), t) < own)
    && At(s.g.lastScFence, t) < own
  }

  function Noted(l: Log, t: nat, k: VClock, start: nat): Log {
    Log(l.who + [t], l.stamps + [At(k, t)], l.clocks + [k], start)
  }

  lemma NotedDominates(l: Log, t: nat, k: VClock, c: VClock)
    requires ValidLog(l) && Dominates(l, c) && ValidLog(Noted(l, t, k, l.start))
    requires At(c, t) < At(k, t) || c == k
    ensures Dominates(Noted(l, t, k, l.start), c)
  {
    var l' := Noted(l, t, k, l.start);
    forall i | l'.start < i < |l'.who| && l'.stamps[i] <= At(c, l'.who[i]) ensures Leq(l'.clocks[i], c) {
      if i < |l.who| {
        assert l'.stamps[i] == l.stamps[i] && l'.who[i] == l.who[i] && l'.clocks[i] == l.clocks[i];
      }
    }
  }

  lemma RecordDominates(l: Log, s: D.State, t: nat)
    requires ValidLog(l) && AllDominate(l, s) && t < |s.g.clocks| && Private(s, t)
    requires ValidLog(Noted(l, t, s.g.clocks[t].clock, l.start))
    ensures AllDominate(Noted(l, t, s.g.clocks[t].clock, l.start), s)
  {
    var k := s.g.clocks[t].clock;
    var l' := Noted(l, t, k, l.start);
    forall u | 0 <= u < |s.g.clocks| ensures ThreadDominates(l', s.g.clocks[u]) {
      NotedDominates(l, t, k, s.g.clocks[u].clock);
      NotedDominates(l, t, k, s.g.clocks[u].fenceAcquire);
      NotedDominates(l, t, k, s.g.clocks[u].fenceRelease);
    }
    forall u | 0 <= u < |s.g.threadInfo| && s.g.threadInfo[u].termination.Some?
      ensures Dominates(l', s.g.threadInfo[u].termination.value)
    {
      NotedDominates(l, t, k, s.g.threadInfo[u].termination.value);
    }
    forall x | x in s.tokens ensures Dominates(l', s.tokens[x]) {
      NotedDominates(l, t, k, s.tokens[x]);
    }
    forall loc | loc in s.cells ensures Dominates(l', SyncVector(s.cells[loc])) {
      NotedDominates(l, t, k, SyncVector(s.cells[loc]));
    }
    NotedDominates(l, t, k, s.g.lastScFence);
  }

  /** Nothing is asked of positions up to the first thread creation. */
  lemma EarlyDominates(l: Log, s: D.State)
    requires ValidLog(l) && l.start >= |l.who| - 1
    ensures AllDominate(l, s)
  {
  }

  // Runs.

  /** The clock of each position's thread when it acted. */
  ghost function ClocksThen(tr: seq<Action>): (ks: seq<VClock>)
    ensures |ks| == |tr|
  {
    if tr == [] then []
    else ClocksThen(tr[..|tr| - 1]) + [D.ClocksOf(Run(tr[..|tr| - 1]).g, tr[|tr| - 1].t).clock]
  }

  ghost function LogOf(tr: seq<Action>): Log {
    Log(Who(tr), Stamps(tr), ClocksThen(tr), FirstCreate(tr))
  }

  /** What the run's invariant gives for the next position. */
  lemma SettledPrivate(who: seq<nat>, st: seq<nat>, start: nat, s: D.State, p: E.Sets, t: nat)
    requires Settled(who, st, start, s, p) && start < |who| && t < |p.threads|
    ensures Tidy(s.g) && SameShape(s, p) && |s.g.clocks| == |p.threads| && Private(s, t)
  {
    SettledSlot(who, st, start, s, p, E.OfScFence);
    forall slot | E.HasSlot(p, slot) && slot != E.OfThread(t)
      ensures At(ClockIn(s, p, slot), t) < OwnStamp(s.g, t)
    {
      SettledSlot(who, st, start, s, p, slot);
    }
    SlotsPrivate(s, p, t);
  }

  lemma SlotsPrivate(s: D.State, p: E.Sets, t: nat)
    requires Tidy(s.g) && SameShape(s, p) && t < |p.threads|
    requires forall slot :: E.HasSlot(p, slot) && slot != E.OfThread(t) ==> At(ClockIn(s, p, slot), t) < OwnStamp(s.g, t)
    ensures |s.g.clocks| == |p.threads| && Private(s, t)
  {
    var own := OwnStamp(s.g, t);
    forall u | 0 <= u < |s.g.clocks|
      ensures u != t ==> At(s.g.clocks[u].clock, t) < own
      ensures At(s.g.clocks[u].fenceAcquire, t) < own && At(s.g.clocks[u].fenceRelease, t) < own
    {
      assert u != t ==> At(ClockIn(s, p, E.OfThread(u)), t) < own;
      assert At(ClockIn(s, p, E.OfAcquireFence(u)), t) < own && At(ClockIn(s, p, E.OfReleaseFence(u)), t) < own;
    }
    forall u | 0 <= u < |s.g.threadInfo| && s.g.threadInfo[u].termination.Some?
      ensures At(s.g.threadInfo[u].termination.value, t) < own
    {
      assert D.Terminated(s.g, u) && At(ClockIn(s, p, E.OfTermination(u)), t) < own;
    }
    forall k | k in s.tokens ensures At(s.tokens[k], t) < own {
      assert k in p.tokens.Keys && At(ClockIn(s, p, E.OfToken(k)), t) < own;
    }
    forall loc | loc in s.cells ensures At(SyncVector(s.cells[loc]), t) < own {
      assert loc in p.sync.Keys && At(ClockIn(s, p, E.OfLocation(loc)), t) < own;
    }
    assert At(ClockIn(s, p, E.OfScFence), t) < own;
  }

  /** Stamps are positive once a second thread exists, and bounded by what their threads have now. */
  lemma SettledLog(who: seq<nat>, st: seq<nat>, ks: seq<VClock>, start: nat, s: D.State, p: E.Sets)
    requires Settled(who, st, start, s, p) && |ks| == |who|
    ensures |st| == |who| && ValidLog(Log(who, st, ks, start)) && OwnBound(Log(who, st, ks, start), s)
  {
    SettledSlot(who, st, start, s, p, E.OfScFence);
    var own: seq<nat> :| Inv(Context(who, st, own, start, |who|, None), s, p);
  }

  /** One step, given its past's log. */
  lemma DominatesStep(l: Log, s: D.State, p: E.Sets, a: Action, l': Log)
    requires Settled(l.who, l.stamps, l.start, s, p) && ValidLog(l) && AllDominate(l, s)
    requires E.Enabled(p, a) && D.Enabled(s, a) && D.Step(s, a).ok && a.t < |s.g.clocks|
    requires Tidy(s.g) && SameShape(s, p) && D.ReuseCandidate(s.g) == None && ValidLog(l')
    requires l' == Noted(l, a.t, s.g.clocks[a.t].clock, NextStart(l.start, |l.who|, a))
    ensures AllDominate(l', D.Step(s, a).state)
  {
    SettledLog(l.who, l.stamps, l.clocks, l.start, s, p);
    if l.start < |l.who| {
      SettledPrivate(l.who, l.stamps, l.start, s, p, a.t);
      RecordDominates(l, s, a.t);
      assert OwnBound(l', s);
      StepDominates(l', s, p, a);
    } else {
      EarlyDominates(l', D.Step(s, a).state);
    }
  }

  /** The log grows by one entry with every step. */
  lemma {:induction false} LogExtend(tr: seq<Action>, a: Action)
    requires |Run(tr).g.clocks| > a.t && Tidy(Run(tr).g)
    ensures LogOf(tr + [a]) == Noted(LogOf(tr), a.t, Run(tr).g.clocks[a.t].clock, NextStart(FirstCreate(tr), |tr|, a))
  {
    ClocksExtend(tr, a);
    RunExtend(tr, a);
    FirstCreateStep(tr, a);
    assert Who(tr + [a]) == Who(tr) + [a.t];
    assert D.ClocksOf(Run(tr).g, a.t) == Run(tr).g.clocks[a.t];
  }

  lemma {:induction false} ClocksExtend(tr: seq<Action>, a: Action)
    ensures ClocksThen(tr + [a]) == ClocksThen(tr) + [D.ClocksOf(Run(tr).g, a.t).clock]
  {
    assert (tr + [a])[..|tr|] == tr;
  }

  lemma {:induction false} LogIsValid(tr: seq<Action>)
    requires E.WellFormed(tr) && Passes(tr)
    ensures ValidLog(LogOf(tr))
  {
    RunSettles(tr);
    SettledLog(Who(tr), Stamps(tr), ClocksThen(tr), FirstCreate(tr), Run(tr), E.Run(tr));
  }

  /** What `DominatesStep` needs to know of the state after a run. */
  lemma {:induction false} RunReady(tr: seq<Action>, a: Action)
    requires E.WellFormed(tr) && Passes(tr) && E.Enabled(E.Run(tr), a) && Accepts(Run(tr), a)
    ensures var s, p := Run(tr), E.Run(tr);
      && Settled(Who(tr), Stamps(tr), FirstCreate(tr), s, p) && Tidy(s.g) && SameShape(s, p)
      && a.t < |s.g.clocks| && D.Enabled(s, a) && D.Step(s, a).ok && D.ReuseCandidate(s.g) == None
  {
    RunSettles(tr);
    SettledSlot(Who(tr), Stamps(tr), FirstCreate(tr), Run(tr), E.Run(tr), E.OfThread(a.t));
    SameEnabled(Run(tr), E.Run(tr), a);
    GuardsNeverPass(tr, a.t);
  }

  lemma {:induction false} RunDominatesStep(tr: seq<Action>, a: Action)
    requires E.WellFormed(tr) && Passes(tr) && E.Enabled(E.Run(tr), a) && Accepts(Run(tr), a)
    requires ValidLog(LogOf(tr)) && AllDominate(LogOf(tr), Run(tr)) && ValidLog(LogOf(tr + [a]))
    ensures AllDominate(LogOf(tr + [a]), Run(tr + [a]))
  {
    RunReady(tr, a);
    LogExtend(tr, a);
    RunExtend(tr, a);
    DominatesStep(LogOf(tr), Run(tr), E.Run(tr), a, LogOf(tr + [a]));
  }

  /** In every run without a reported race: whichever clock has reached a thread's timestamp at some
      step after the first thread creation covers all that the thread knew at that step. */
  lemma {:induction false} RunDominates(tr: seq<Action>)
    requires E.WellFormed(tr) && Passes(tr)
    ensures ValidLog(LogOf(tr)) && AllDominate(LogOf(tr), Run(tr))
  {
    LogIsValid(tr);
    if |tr| == 0 {
      EarlyDominates(LogOf(tr), Run(tr));
    } else {
      var pre, a := LastRun(tr);
      RunDominates(pre);
      RunDominatesStep(pre, a);
    }
  }
}
