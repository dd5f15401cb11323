/** The verdict on one access after a run without a report: the cell and the clocks decide exactly what
    the whole history and its declared order decide. */
module Verdicts {
  import opened VectorClocks
  import opened Actions
  import opened ShadowCells
  import opened ClockRefinement
  import opened ClockSteps
  import opened HappensBefore
  import opened SetsAreHappensBefore
  import opened RaceDefinition
  import opened CellHistory
  import opened Runs
  import opened FastTrack
  import opened Exactness
  import D = Detector
  import E = EventSets

  // The sets behind a verdict.

  /** What an access sees once its own read half, if it acquires, has taken effect. */
  function SeenAfter(p: E.Sets, a: Action): set<nat>
    requires IsAccess(a) && a.t < |p.threads| && a.loc in p.sync
  {
    if IsAcquire(a) then p.threads[a.t].past + p.sync[a.loc] else p.threads[a.t].past
  }

  lemma {:induction false} PastIsSet(tr: Trace, t: nat, i: nat)
    requires E.WellFormed(tr) && t < |E.Run(tr).threads|
    ensures i in E.Run(tr).threads[t].past <==> InPast(tr, t, i)
  {
    SetsMatch(tr);
    assert MatchesAt(tr, Hb(tr), E.Run(tr), i);
    assert E.HasSlot(E.Run(tr), E.OfThread(t));
  }

  lemma StepSeesAfter(p: E.Sets, n: nat, a: Action, i: nat)
    requires E.Enabled(p, a) && IsAccess(a) && i < n
    ensures i in E.SetIn(E.Step(p, n, a), E.OfThread(a.t)) <==> i in SeenAfter(p, a)
  {
  }

  lemma {:induction false} NextIsSet(tr: Trace, a: Action, i: nat)
    requires E.WellFormed(tr) && E.Enabled(E.Run(tr), a) && IsAccess(a) && i < |tr|
    ensures i in SeenAfter(E.Run(tr), a) <==> HappensBeforeNext(tr, a, i)
  {
    SetsMatch(tr);
    HbOfNew(tr, a, i);
    assert MatchesAt(tr, Hb(tr), E.Run(tr), i);
    NewPast(tr, Hb(tr), a, Hb(tr + [a])[|tr|], E.Run(tr), i);
    StepSeesAfter(E.Run(tr), |tr|, a, i);
  }

  lemma {:induction false} SeenClosed(tr: Trace, a: Action)
    requires E.WellFormed(tr) && E.Enabled(E.Run(tr), a) && IsAccess(a)
    ensures Closed(Hb(tr), E.Run(tr).threads[a.t].past) && Closed(Hb(tr), SeenAfter(E.Run(tr), a))
  {
    SlotClosed(tr, E.OfThread(a.t));
    SlotClosed(tr, E.OfLocation(a.loc));
  }

  lemma SeesJoin(tr: Trace, st: seq<nat>, start: nat, k: VClock, m: set<nat>, k': VClock, m': set<nat>)
    requires Sees(tr, st, start, k, m)
    requires forall i :: start < i < |tr| ==> (i in m' <==> st[i] <= At(k', tr[i].t))
    ensures Sees(tr, st, start, Join(k, k'), m + m')
  {
  }

  /** What a slot's clock sees, with the trace's own positions. */
  lemma SlotSees(tr: Trace, st: seq<nat>, start: nat, s: D.State, p: E.Sets, slot: E.Slot)
    requires Settled(Who(tr), st, start, s, p) && E.HasSlot(p, slot)
    ensures |st| == |tr| && Tidy(s.g) && SameShape(s, p)
    ensures forall i :: start < i < |tr| ==> (i in E.SetIn(p, slot) <==> st[i] <= At(ClockIn(s, p, slot), tr[i].t))
    ensures slot.OfThread? ==> Sees(tr, st, start, ClockIn(s, p, slot), E.SetIn(p, slot))
  {
    var w := Who(tr);
    SettledSlot(w, st, start, s, p, slot);
    assert forall i :: 0 <= i < |tr| ==> w[i] == tr[i].t;
  }

  lemma SeesBoth(tr: Trace, st: seq<nat>, start: nat, s: D.State, p: E.Sets, a: Action)
    requires Settled(Who(tr), st, start, s, p) && E.Enabled(p, a) && IsAccess(a)
    ensures Tidy(s.g) && a.t < |s.g.clocks| && a.loc in s.cells
    ensures Sees(tr, st, start, s.g.clocks[a.t].clock, p.threads[a.t].past)
    ensures Sees(tr, st, start, ClockAfter(s.cells[a.loc], s.g.clocks[a.t], a), SeenAfter(p, a))
  {
    SlotSees(tr, st, start, s, p, E.OfThread(a.t));
    SlotSees(tr, st, start, s, p, E.OfLocation(a.loc));
    assert a.loc in p.sync.Keys;
    SeesJoin(tr, st, start, s.g.clocks[a.t].clock, p.threads[a.t].past, SyncVector(s.cells[a.loc]), p.sync[a.loc]);
  }

  lemma {:induction false} OwnIsSeen(tr: Trace, a: Action)
    requires E.WellFormed(tr) && E.Enabled(E.Run(tr), a) && IsAccess(a)
    ensures OwnIn(tr, a.t, E.Run(tr).threads[a.t].past) && OwnIn(tr, a.t, SeenAfter(E.Run(tr), a))
  {
    forall i: nat | i < |tr| && tr[i].t == a.t ensures i in E.Run(tr).threads[a.t].past {
      OwnInPast(tr, a.t, i);
      PastIsSet(tr, a.t, i);
    }
  }

  /** What one access is judged on. */
  datatype Judged = Judged(cell: Cell, tc: ThreadClocks, st: seq<nat>, start: nat, before: set<nat>, after: set<nat>)

  ghost function JudgedOn(tr: Trace, a: Action): Judged
    requires IsAccess(a) && a.t < |Run(tr).g.clocks| && a.loc in Run(tr).cells
    requires a.t < |E.Run(tr).threads| && a.loc in E.Run(tr).sync
  {
    Judged(Run(tr).cells[a.loc], Run(tr).g.clocks[a.t], Stamps(tr), FirstCreate(tr),
      E.Run(tr).threads[a.t].past, SeenAfter(E.Run(tr), a))
  }

  /** A run without a report, and the step that comes next. */
  ghost predicate Situation(tr: Trace, a: Action) {
    E.WellFormed(tr + [a]) && Passes(tr)
  }

  lemma StandingFacts(tr: Trace, st: seq<nat>, start: nat, s: D.State, p: E.Sets, a: Action)
    requires Settled(Who(tr), st, start, s, p) && E.Enabled(p, a)
    ensures Tidy(s.g) && SameShape(s, p) && D.Enabled(s, a) && a.t < |s.g.clocks|
    ensures IsAccess(a) ==> a.loc in s.cells
    ensures s.g.multiThreaded <==> start < |tr|
    ensures start == |tr| ==> forall i :: 0 <= i < |tr| ==> tr[i].t == a.t
  {
    SettledSlot(Who(tr), st, start, s, p, E.OfThread(a.t));
    SameEnabled(s, p, a);
    assert IsAccess(a) ==> a.loc in p.sync.Keys;
    assert forall i :: 0 <= i < |tr| ==> Who(tr)[i] == tr[i].t;
  }

  lemma {:induction false} Standing(tr: Trace, a: Action)
    requires Situation(tr, a)
    ensures E.WellFormed(tr) && E.Enabled(E.Run(tr), a)
    ensures Settled(Who(tr), Stamps(tr), FirstCreate(tr), Run(tr), E.Run(tr))
    ensures CellsInv(tr, Stamps(tr), FirstCreate(tr), Run(tr))
    ensures Tidy(Run(tr).g) && SameShape(Run(tr), E.Run(tr)) && D.Enabled(Run(tr), a) && a.t < |Run(tr).g.clocks|
    ensures IsAccess(a) ==> a.loc in Run(tr).cells
    ensures Run(tr).g.multiThreaded <==> FirstCreate(tr) < |tr|
    ensures FirstCreate(tr) == |tr| ==> forall i :: 0 <= i < |tr| ==> tr[i].t == a.t
  {
    E.RunExtend(tr, a);
    RunSettles(tr);
    RunCells(tr);
    StandingFacts(tr, Stamps(tr), FirstCreate(tr), Run(tr), E.Run(tr), a);
  }

  lemma {:induction false} JudgedFacts(tr: Trace, a: Action)
    requires Situation(tr, a) && RaceFreeAtCheck(tr) && IsAccess(a)
    ensures a.t < |Run(tr).g.clocks| && a.loc in Run(tr).cells
    ensures a.t < |E.Run(tr).threads| && a.loc in E.Run(tr).sync
    ensures Judgeable(tr, a, JudgedOn(tr, a))
  {
    Standing(tr, a);
    SeesBoth(tr, Stamps(tr), FirstCreate(tr), Run(tr), E.Run(tr), a);
    OwnIsSeen(tr, a);
    SeenClosed(tr, a);
    ClosedIsCovered(tr, a.loc, E.Run(tr).threads[a.t].past);
    ClosedIsCovered(tr, a.loc, SeenAfter(E.Run(tr), a));
  }

  /** Whether position `i` with action `b` is seen by the check that `a` makes against it. */
  predicate SeenAtCheck(b: Action, a: Action, before: set<nat>, after: set<nat>, i: nat) {
    if a.Rmw? && !Writes(b) then i in after else i in before
  }

  ghost predicate ConflictsSeen(tr: Trace, a: Action, before: set<nat>, after: set<nat>) {
    forall i :: 0 <= i < |tr| && Conflict(tr[i], a) ==> SeenAtCheck(tr[i], a, before, after, i)
  }

  /** What matters once sizes differ. */
  ghost predicate SizesSeen(tr: Trace, a: Action, before: set<nat>, after: set<nat>) {
    forall i :: 0 <= i < |tr| && SizeConflict(tr[i], a) ==> SeenAtCheck(tr[i], a, before, after, i)
  }

  /** What one access on its cell is judged by. */
  ghost predicate Judgeable(tr: Trace, a: Action, j: Judged) {
    && IsAccess(a) && j.before <= j.after && (!IsAcquire(a) ==> j.after == j.before)
    && Verdictable(tr, j.st, j.start, a.loc, j.cell, a.t, j.tc.clock, j.before)
    && Verdictable(tr, j.st, j.start, a.loc, j.cell, a.t, ClockAfter(j.cell, j.tc, a), j.after)
  }

  /** The size test refuses exactly when another size is recorded and something is unordered. */
  lemma SizeTestVerdict(tr: Trace, a: Action, j: Judged)
    requires Judgeable(tr, a, j) && IsAtomic(a) && WriteWasBefore(j.cell, j.tc.clock)
    ensures SizeRefused(j.cell, j.tc, a) <==> !SizeIs(j.cell, a.size) && !SizesSeen(tr, a, j.before, j.after)
  {
    if a.Rmw? {
      SizeVerdict(tr, j.st, j.start, j.cell, a, j.tc.clock, j.before, ClockAfter(j.cell, j.tc, a), j.after);
    } else {
      SizeVerdict(tr, j.st, j.start, j.cell, a, j.tc.clock, j.before, j.tc.clock, j.before);
    }
  }

  /** An access as far as the race definition goes: what it conflicts with must be seen. */
  lemma PlainConflicts(tr: Trace, a: Action, j: Judged)
    requires Judgeable(tr, a, j) && !IsAtomic(a)
    ensures CellAccess(j.cell, j.tc, a).ok <==> ConflictsSeen(tr, a, j.before, j.after)
  {
    if a.NaRead? {
      ReadVerdict(tr, j.st, j.start, j.cell, a, j.tc.clock, j.before);
    } else {
      WriteVerdict(tr, j.st, j.start, j.cell, a, j.tc.clock, j.before);
    }
    PlainSeen(tr, a, j.before, j.after);
  }

  lemma PlainSeen(tr: Trace, a: Action, before: set<nat>, after: set<nat>)
    requires !a.Rmw?
    ensures ConflictsSeen(tr, a, before, after) <==> AllSeen(tr, a, before)
  {
  }

  lemma RmwSeen(tr: Trace, a: Action, before: set<nat>, after: set<nat>)
    requires a.Rmw?
    ensures ConflictsSeen(tr, a, before, after) <==> WritesSeen(tr, a, before) && ReadsSeen(tr, a, after)
  {
    forall i | 0 <= i < |tr| && Conflict(tr[i], a)
      ensures IsNaWrite(tr[i]) || tr[i].NaRead?
      ensures SeenAtCheck(tr[i], a, before, after, i) <==> if IsNaWrite(tr[i]) then i in before else i in after
    {
    }
  }

  lemma LoadConflicts(tr: Trace, a: Action, j: Judged)
    requires Judgeable(tr, a, j) && a.Load?
    ensures CellAccess(j.cell, j.tc, a).ok <==>
      (!SizeRefused(j.cell, j.tc, a) && ConflictsSeen(tr, a, j.before, j.after))
  {
    LoadVerdict(tr, j.st, j.start, j.cell, a, j.tc, j.before);
    PlainSeen(tr, a, j.before, j.after);
  }

  lemma StoreConflicts(tr: Trace, a: Action, j: Judged)
    requires Judgeable(tr, a, j) && a.Store?
    ensures CellAccess(j.cell, j.tc, a).ok <==>
      (!SizeRefused(j.cell, j.tc, a) && ConflictsSeen(tr, a, j.before, j.after))
  {
    StoreVerdict(tr, j.st, j.start, j.cell, a, j.tc, j.before);
    PlainSeen(tr, a, j.before, j.after);
  }

  lemma RmwConflicts(tr: Trace, a: Action, j: Judged)
    requires Judgeable(tr, a, j) && a.Rmw?
    ensures CellAccess(j.cell, j.tc, a).ok <==>
      (!SizeRefused(j.cell, j.tc, a) && ConflictsSeen(tr, a, j.before, j.after))
  {
    RmwVerdict(tr, j.st, j.start, j.cell, a, j.tc, j.before, j.after);
    RmwSeen(tr, a, j.before, j.after);
  }

  lemma AtomicConflicts(tr: Trace, a: Action, j: Judged)
    requires Judgeable(tr, a, j) && IsAtomic(a)
    ensures CellAccess(j.cell, j.tc, a).ok <==>
      (!SizeRefused(j.cell, j.tc, a) && ConflictsSeen(tr, a, j.before, j.after))
  {
    match a
    case Load(_, _, _, _) => LoadConflicts(tr, a, j);
    case Store(_, _, _, _) => StoreConflicts(tr, a, j);
    case Rmw(_, _, _, _) => RmwConflicts(tr, a, j);
  }

  /** One access, on its cell: it passes exactly when every conflicting access is seen and, should
      another size be recorded, every atomic access it must be ordered with in that case. Only the
      write half of a read-modify-write profits from what its read half acquired. */
  lemma CellVerdict(tr: Trace, a: Action, j: Judged)
    requires Judgeable(tr, a, j)
    ensures CellAccess(j.cell, j.tc, a).ok <==>
      && ConflictsSeen(tr, a, j.before, j.after)
      && (IsAtomic(a) && !SizeIs(j.cell, a.size) ==> SizesSeen(tr, a, j.before, j.after))
  {
    if !IsAtomic(a) {
      PlainConflicts(tr, a, j);
    } else {
      AtomicConflicts(tr, a, j);
      if WriteWasBefore(j.cell, j.tc.clock) {
        SizeTestVerdict(tr, a, j);
      } else {
        AtomicTests(j.cell, j.tc, a);
        EpochVerdict(tr, j.st, j.start, j.cell, a, j.tc.clock, j.before);
      }
    }
  }

  /** Ordered at the check, in terms of the sets. */
  lemma {:induction false} OrderedIsSeen(tr: Trace, a: Action, i: nat)
    requires E.WellFormed(tr) && E.Enabled(E.Run(tr), a) && IsAccess(a) && i < |tr|
    ensures OrderedAtCheck(tr, a, i) <==> SeenAtCheck(tr[i], a, E.Run(tr).threads[a.t].past, SeenAfter(E.Run(tr), a), i)
  {
    PastIsSet(tr, a.t, i);
    NextIsSet(tr, a, i);
  }

  /** The mixed-size test: the cell has another size on record, or several, and an atomic access that
      matters then is not ordered at the check. */
  ghost predicate CellClash(tr: Trace, a: Action) {
    IsAtomic(a) && a.loc in Run(tr).cells && !SizeIs(Run(tr).cells[a.loc], a.size) && UnorderedSizes(tr, a)
  }

  lemma {:induction false} RaceIsUnseen(tr: Trace, a: Action)
    requires E.WellFormed(tr) && E.Enabled(E.Run(tr), a) && IsAccess(a) && a.loc in Run(tr).cells
    ensures var before, after := E.Run(tr).threads[a.t].past, SeenAfter(E.Run(tr), a);
      && (!RacesAtCheck(tr, a) <==> ConflictsSeen(tr, a, before, after))
      && (!CellClash(tr, a) <==>
           (IsAtomic(a) && !SizeIs(Run(tr).cells[a.loc], a.size) ==> SizesSeen(tr, a, before, after)))
  {
    forall i: nat | i < |tr|
      ensures OrderedAtCheck(tr, a, i) <==> SeenAtCheck(tr[i], a, E.Run(tr).threads[a.t].past, SeenAfter(E.Run(tr), a), i)
    {
      OrderedIsSeen(tr, a, i);
    }
  }

  lemma {:induction false} AccessReportsExactly(tr: Trace, a: Action)
    requires Situation(tr, a) && RaceFreeAtCheck(tr) && IsAccess(a) && FirstCreate(tr) < |tr|
    ensures a.loc in Run(tr).cells && a.t < |Run(tr).g.clocks|
    ensures CellAccess(Run(tr).cells[a.loc], Run(tr).g.clocks[a.t], a).ok <==> !RacesAtCheck(tr, a) && !CellClash(tr, a)
  {
    Standing(tr, a);
    JudgedFacts(tr, a);
    CellVerdict(tr, a, JudgedOn(tr, a));
    RaceIsUnseen(tr, a);
  }

  /** Nothing is unordered while one thread is alone, nor does any step but an access race. */
  lemma CannotRace(tr: Trace, a: Action)
    requires (forall i :: 0 <= i < |tr| ==> tr[i].t == a.t) || (!IsAccess(a) && (a.Allocate? ==> Untouched(tr, a.loc)))
    ensures !RacesAtCheck(tr, a) && !CellClash(tr, a)
  {
  }

  lemma AcceptsIsCellAccess(s: D.State, a: Action)
    requires Tidy(s.g) && D.Enabled(s, a)
    ensures IsAccess(a) ==> (Accepts(s, a) <==> !s.g.multiThreaded || CellAccess(s.cells[a.loc], s.g.clocks[a.t], a).ok)
    ensures !IsAccess(a) ==> Accepts(s, a)
  {
    StepCells(s, a);
  }

  lemma {:induction false} ReportsExactlyNext(tr: Trace, a: Action)
    requires Situation(tr, a) && RaceFreeAtCheck(tr)
    ensures Accepts(Run(tr), a) <==> !RacesAtCheck(tr, a) && !CellClash(tr, a)
  {
    Standing(tr, a);
    AcceptsIsCellAccess(Run(tr), a);
    if IsAccess(a) && FirstCreate(tr) < |tr| {
      AccessReportsExactly(tr, a);
    } else {
      assert a.Allocate? ==> Untouched(tr, a.loc);
      CannotRace(tr, a);
    }
  }

  lemma RaceFreePrefix(tr: Trace, a: Action)
    ensures RaceFreeAtCheck(tr + [a]) <==> RaceFreeAtCheck(tr) && !RacesAtCheck(tr, a)
  {
    var all := tr + [a];
    assert all[..|tr|] == tr && all[|tr|] == a;
    assert forall j :: 0 <= j < |tr| ==> all[..j] == tr[..j] && all[j] == tr[j];
  }

  /** A run without a report has no race. */
  lemma {:induction false} PassedIsRaceFree(tr: Trace)
    requires E.WellFormed(tr) && Passes(tr)
    ensures RaceFreeAtCheck(tr)
    decreases |tr|
  {
    if |tr| > 0 {
      var pre, a := LastRun(tr);
      PassedIsRaceFree(pre);
      ReportsExactlyNext(pre, a);
      RaceFreePrefix(pre, a);
    }
  }
}
