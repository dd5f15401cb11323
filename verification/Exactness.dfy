/** What every run keeps: the pasts are closed under happens-before, and each shadow cell summarises
    the history of its location, whatever the sizes of its atomic accesses. */
module Exactness {
  import opened Wrappers
  import opened VectorClocks
  import opened Actions
  import opened ShadowCells
  import opened ClockRefinement
  import opened ClockSteps
  import opened HappensBefore
  import opened SetsAreHappensBefore
  import opened RaceDefinition
  import opened CellHistory
  import opened Runs
  import opened FastTrack
  import D = Detector
  import E = EventSets

  // Pasts are closed under happens-before.

  ghost predicate Closed(hb: seq<set<nat>>, m: set<nat>) {
    forall x, y :: x in m && x < |hb| && y in hb[x] ==> y in m
  }

  lemma {:induction false} ReachesClosed(tr: Trace, slot: E.Slot, x: nat, y: nat)
    requires x < |tr| && Reaches(tr, Hb(tr), slot, x) && y in Hb(tr)[x]
    ensures Reaches(tr, Hb(tr), slot, y)
  {
    match slot
    case OfAcquireFence(t) =>
      var q: nat :| PendingReaches(tr, Hb(tr), t, x, q);
      SyncClosed(tr, q, tr[q].loc, x, y);
      assert PendingReaches(tr, Hb(tr), t, y, q);
    case OfLocation(loc) =>
      SyncClosed(tr, |tr|, loc, x, y);
    case _ =>
      var j: nat :| j < |tr| && Feeds(tr[j], slot) && x in Hb(tr)[j];
      HbTransitive(tr, y, x, j);
  }

  lemma {:induction false} SyncClosed(tr: Trace, q: nat, loc: nat, x: nat, y: nat)
    requires x < |tr| && SyncReaches(tr, Hb(tr), q, loc, x) && y in Hb(tr)[x]
    ensures SyncReaches(tr, Hb(tr), q, loc, y)
  {
    var p: nat, i: nat :| SyncSource(tr, Hb(tr), q, loc, x, p, i);
    HbTransitive(tr, y, x, i);
    assert SyncSource(tr, Hb(tr), q, loc, y, p, i);
  }

  lemma {:induction false} SlotClosed(tr: Trace, slot: E.Slot)
    requires E.WellFormed(tr) && E.HasSlot(E.Run(tr), slot)
    ensures Closed(Hb(tr), E.SetIn(E.Run(tr), slot))
  {
    SetsMatch(tr);
    var m := E.SetIn(E.Run(tr), slot);
    forall x: nat, y: nat | x in m && x < |tr| && y in Hb(tr)[x] ensures y in m {
      assert MatchesAt(tr, Hb(tr), E.Run(tr), x) && MatchesAt(tr, Hb(tr), E.Run(tr), y);
      ReachesClosed(tr, slot, x, y);
    }
  }

  // Race-free traces are ordered before every non-atomic write.

  lemma {:induction false} OrderedIsBefore(tr: Trace, i: nat, w: nat)
    requires i < w < |tr| && InPast(tr[..w], tr[w].t, i)
    ensures i in Hb(tr)[w]
  {
    PastIsBefore(tr[..w], tr[w], i);
    HbPrefix(tr, w + 1);
    assert tr[..w] + [tr[w]] == tr[..w + 1];
  }

  lemma {:induction false} EarlierIsBefore(tr: Trace, i: nat, w: nat)
    requires RaceFreeAtCheck(tr) && i < w < |tr|
    requires IsRaceAccess(tr[i]) && IsNaWrite(tr[w]) && tr[i].loc == tr[w].loc
    ensures i in Hb(tr)[w]
  {
    if tr[i].t == tr[w].t {
      OwnInPast(tr[..w], tr[w].t, i);
    } else {
      assert !RacesAtCheck(tr[..w], tr[w]);
      assert tr[..w][i] == tr[i] && Conflict(tr[..w][i], tr[w]);
    }
    OrderedIsBefore(tr, i, w);
  }

  lemma OwnInPast(tr: Trace, t: nat, i: nat)
    requires i < |tr| && tr[i].t == t
    ensures InPast(tr, t, i)
  {
    HbUnfold(tr, i, i);
  }

  lemma {:induction false} ClosedIsCovered(tr: Trace, loc: nat, m: set<nat>)
    requires RaceFreeAtCheck(tr) && Closed(Hb(tr), m)
    ensures CoveredByLast(tr, loc, m)
  {
    var w := LastNaWrite(tr, loc);
    if w >= 0 && w in m {
      forall i: nat | i < w && IsRaceAccess(tr[i]) && tr[i].loc == loc ensures i in m {
        EarlierIsBefore(tr, i, w);
      }
    }
  }

  // The cells after a run.

  ghost predicate CellsInv(tr: Trace, st: seq<nat>, start: nat, s: D.State) {
    && (forall loc :: loc in s.cells ==> CellInv(tr, st, start, loc, s.cells[loc]))
    && (forall loc :: loc !in s.cells ==> Untouched(tr, loc))
  }

  /** The acting thread's timestamp and clock in one step. */
  lemma Acting(tr: Trace, st: seq<nat>, start: nat, s: D.State, p: E.Sets, a: Action)
    requires Settled(Who(tr), st, start, s, p) && E.Enabled(p, a)
    ensures |st| == |tr| && start <= |tr| && Tidy(s.g) && SameShape(s, p) && (s.g.multiThreaded <==> start < |tr|)
    ensures a.t < |s.g.clocks| && D.ThreadIndex(s.g, a.t) == a.t && D.ThreadIndex(s.g, 0) == 0
    ensures D.ClocksOf(s.g, a.t) == s.g.clocks[a.t]
    ensures At(s.g.clocks[a.t].clock, a.t) == OwnStamp(s.g, a.t)
    ensures forall i :: 0 <= i < |tr| && tr[i].t == a.t ==> st[i] <= OwnStamp(s.g, a.t)
  {
    SettledSlot(Who(tr), st, start, s, p, E.OfThread(a.t));
  }

  /** An accepted atomic access touches the vectors of its own kind and nothing else. */
  predicate Touched(cell: Cell, k: VClock, k': VClock, a: Action, cell': Cell)
    requires IsAtomic(a)
  {
    && cell'.(atomicOps := None) == cell.(atomicOps := None) && cell'.atomicOps.Some?
    && Extends(a, AtomicReads, a.loc, ReadVector(cell), k, ReadVector(cell'))
    && Extends(a, AtomicWrites, a.loc, WriteVector(cell), k', WriteVector(cell'))
    && (cell'.atomicOps.value.size == Some(a.size) || (cell'.atomicOps.value.size == None && !SizeIs(cell, a.size)))
  }

  lemma TouchedByLoad(cell: Cell, k: VClock, k': VClock, a: Action)
    requires a.Load?
    ensures Touched(cell, k, k', a, LoadedCell(cell, k, a.t, SizeAfterLoad(cell, k, a.size)))
  {
  }

  lemma TouchedByStore(cell: Cell, k: VClock, k': VClock, a: Action, sync: VClock)
    requires a.Store?
    ensures Touched(cell, k, k', a, StoredCell(cell, k', a.t, a.size, sync))
  {
  }

  lemma TouchedByRmw(cell: Cell, k: VClock, k': VClock, a: Action, sync: VClock)
    requires a.Rmw?
    ensures Touched(cell, k, k', a, StoredCell(LoadedCell(cell, k, a.t, Some(a.size)), k', a.t, a.size, sync))
  {
  }

  lemma LoadTouches(cell: Cell, tc: ThreadClocks, a: Action)
    requires a.Load? && CellAccess(cell, tc, a).ok
    ensures Touched(cell, tc.clock, ClockAfter(cell, tc, a), a, CellAccess(cell, tc, a).cell)
  {
    LoadEffect(cell, tc, a.t, a.size, Acquires(a.rord));
    TouchedByLoad(cell, tc.clock, ClockAfter(cell, tc, a), a);
  }

  lemma StoreTouches(cell: Cell, tc: ThreadClocks, a: Action)
    requires a.Store? && CellAccess(cell, tc, a).ok
    ensures Touched(cell, tc.clock, ClockAfter(cell, tc, a), a, CellAccess(cell, tc, a).cell)
  {
    StoreEffect(cell, tc, a.t, a.size, Releases(a.word));
    TouchedByStore(cell, tc.clock, ClockAfter(cell, tc, a), a, PublishedClock(tc, Releases(a.word)));
  }

  lemma RmwTouches(cell: Cell, tc: ThreadClocks, a: Action)
    requires a.Rmw? && CellAccess(cell, tc, a).ok
    ensures Touched(cell, tc.clock, ClockAfter(cell, tc, a), a, CellAccess(cell, tc, a).cell)
  {
    var tc' := AcquiredClocks(tc, SyncVector(cell), RwAcquires(a.aord));
    assert tc'.clock == ClockAfter(cell, tc, a);
    var sync := Join(SyncVector(cell), PublishedClock(tc', RwReleases(a.aord)));
    assert CellAccess(cell, tc, a).cell == StoredCell(LoadedCell(cell, tc.clock, a.t, Some(a.size)), tc'.clock, a.t, a.size, sync) by {
      RmwEffect(cell, tc, a.t, a.size, RwAcquires(a.aord), RwReleases(a.aord));
    }
    TouchedByRmw(cell, tc.clock, tc'.clock, a, sync);
  }

  lemma AtomicCellAccess(cell: Cell, tc: ThreadClocks, a: Action)
    requires IsAtomic(a) && CellAccess(cell, tc, a).ok
    ensures Touched(cell, tc.clock, ClockAfter(cell, tc, a), a, CellAccess(cell, tc, a).cell)
  {
    match a
    case Load(_, _, _, _) => LoadTouches(cell, tc, a);
    case Store(_, _, _, _) => StoreTouches(cell, tc, a);
    case Rmw(_, _, _, _) => RmwTouches(cell, tc, a);
  }

  /** The accessed cell after an accepted access. */
  lemma AccessedCell(tr: Trace, st: seq<nat>, start: nat, cell: Cell, tc: ThreadClocks, a: Action, now: nat)
    requires IsAccess(a) && start < |tr| && CellInv(tr, st, start, a.loc, cell)
    requires At(tc.clock, a.t) == now == At(ClockAfter(cell, tc, a), a.t)
    requires forall i :: 0 <= i < |tr| && tr[i].t == a.t ==> st[i] <= now
    requires CellAccess(cell, tc, a).ok
    ensures CellInv(tr + [a], st + [now], start, a.loc, CellAccess(cell, tc, a).cell)
  {
    if a.NaRead? {
      CellReadNonAtomically(tr, st, start, cell, a, now, tc.clock);
    } else if a.NaWrite? {
      CellWrittenNonAtomically(tr, st, start, cell, a, now, tc.clock);
    } else {
      AtomicCellAccess(cell, tc, a);
      CellAccessedAtomically(tr, st, start, cell, a, now, tc.clock, ClockAfter(cell, tc, a), CellAccess(cell, tc, a).cell);
    }
  }

  /** The acting thread's clock has its own timestamp, before and after the access acquires. */
  lemma ClocksAreOwn(tr: Trace, st: seq<nat>, start: nat, s: D.State, p: E.Sets, a: Action)
    requires Settled(Who(tr), st, start, s, p) && E.Enabled(p, a) && IsAccess(a) && start < |tr|
    ensures Tidy(s.g) && a.t < |s.g.clocks| && a.loc in s.cells
    ensures At(ClockAfter(s.cells[a.loc], s.g.clocks[a.t], a), a.t) == OwnStamp(s.g, a.t) == At(s.g.clocks[a.t].clock, a.t)
  {
    Acting(tr, st, start, s, p, a);
    SettledSlot(Who(tr), st, start, s, p, E.OfLocation(a.loc));
    assert a.loc in p.sync.Keys;
    assert ClockIn(s, p, E.OfLocation(a.loc)) == SyncVector(s.cells[a.loc]);
  }

  /** What a step does to the cells. */
  lemma StepCells(s: D.State, a: Action)
    requires Tidy(s.g) && D.Enabled(s, a) && a.t < |s.g.clocks|
    ensures var s' := D.Step(s, a).state;
      if a.Allocate? then
        s'.cells == s.cells[a.loc := if a.tracked then NewCell(At(s.g.clocks[a.t].clock, a.t), a.t) else NewCell(0, 0)]
      else if IsAccess(a) && s.g.multiThreaded then
        s'.cells == s.cells[a.loc := CellAccess(s.cells[a.loc], s.g.clocks[a.t], a).cell]
      else s'.cells == s.cells
    ensures IsAccess(a) ==> (D.Step(s, a).ok <==> !s.g.multiThreaded || CellAccess(s.cells[a.loc], s.g.clocks[a.t], a).ok)
    ensures !IsAccess(a) ==> D.Step(s, a).ok
  {
    if IsAccess(a) {
      if s.g.multiThreaded {
        AccessSteps(s, a);
      }
    }
  }

  /** What a step makes of one location's cell. */
  predicate CellTurns(s: D.State, a: Action, loc: nat, cell': Cell)
    requires a.t < |s.g.clocks|
  {
    if a.Allocate? && a.loc == loc then
      cell' == if a.tracked then NewCell(At(s.g.clocks[a.t].clock, a.t), a.t) else NewCell(0, 0)
    else
      loc in s.cells &&
      if s.g.multiThreaded && IsAccess(a) && a.loc == loc then
        CellAccess(s.cells[loc], s.g.clocks[a.t], a).ok && cell' == CellAccess(s.cells[loc], s.g.clocks[a.t], a).cell
      else cell' == s.cells[loc]
  }

  lemma StepTurns(s: D.State, a: Action, loc: nat, cells: map<nat, Cell>)
    requires Tidy(s.g) && D.Enabled(s, a) && a.t < |s.g.clocks| && D.Step(s, a).ok
    requires cells == D.Step(s, a).state.cells && loc in cells
    ensures CellTurns(s, a, loc, cells[loc])
  {
    StepCells(s, a);
  }

  /** The invariant of one cell, step by step. */
  lemma CellStep(tr: Trace, st: seq<nat>, start: nat, s: D.State, p: E.Sets, a: Action, loc: nat, cell': Cell)
    requires Settled(Who(tr), st, start, s, p) && E.Enabled(p, a) && a.t < |s.g.clocks|
    requires CellsInv(tr, st, start, s) && CellTurns(s, a, loc, cell') && (a.Allocate? ==> a.loc !in s.cells)
    ensures CellInv(tr + [a], st + [OwnStamp(s.g, a.t)], NextStart(start, |tr|, a), loc, cell')
  {
    Acting(tr, st, start, s, p, a);
    var now := OwnStamp(s.g, a.t);
    if a.Allocate? && a.loc == loc {
      CellAllocated(tr, st, start, a, now);
    } else if start == |tr| {
      CellEarly(tr, st, start, loc, s.cells[loc], a, now);
    } else if TouchesLoc(a, loc) {
      ClocksAreOwn(tr, st, start, s, p, a);
      AccessedCell(tr, st, start, s.cells[loc], s.g.clocks[a.t], a, now);
    } else {
      CellElsewhere(tr, st, start, loc, s.cells[loc], a, now);
    }
  }

  lemma CellsStep(tr: Trace, st: seq<nat>, start: nat, s: D.State, p: E.Sets, a: Action)
    requires Settled(Who(tr), st, start, s, p) && E.Enabled(p, a) && D.Enabled(s, a) && D.Step(s, a).ok
    requires CellsInv(tr, st, start, s)
    ensures CellsInv(tr + [a], st + [OwnStamp(s.g, a.t)], NextStart(start, |tr|, a), D.Step(s, a).state)
  {
    Acting(tr, st, start, s, p, a);
    var now, cells, start' := OwnStamp(s.g, a.t), D.Step(s, a).state.cells, NextStart(start, |tr|, a);
    forall loc | loc in cells ensures CellInv(tr + [a], st + [now], start', loc, cells[loc]) {
      StepTurns(s, a, loc, cells);
      CellStep(tr, st, start, s, p, a, loc, cells[loc]);
    }
    forall loc | loc !in cells ensures Untouched(tr + [a], loc) {
      TouchedIsKnown(s, a, loc);
      StaysUntouched(tr, a, loc);
    }
  }

  lemma StaysUntouched(tr: Trace, a: Action, loc: nat)
    requires Untouched(tr, loc) && !TouchesLoc(a, loc)
    ensures Untouched(tr + [a], loc)
  {
  }

  lemma TouchedIsKnown(s: D.State, a: Action, loc: nat)
    requires Tidy(s.g) && D.Enabled(s, a) && a.t < |s.g.clocks|
    ensures loc !in D.Step(s, a).state.cells ==> loc !in s.cells && !TouchesLoc(a, loc)
  {
    StepCells(s, a);
  }

  lemma {:induction false} RunCellsStep(tr: Trace, a: Action)
    requires E.WellFormed(tr) && Passes(tr) && E.Enabled(E.Run(tr), a) && Accepts(Run(tr), a)
    requires CellsInv(tr, Stamps(tr), FirstCreate(tr), Run(tr))
    ensures CellsInv(tr + [a], Stamps(tr + [a]), FirstCreate(tr + [a]), Run(tr + [a]))
  {
    RunSettles(tr);
    RunExtend(tr, a);
    FirstCreateStep(tr, a);
    Acting(tr, Stamps(tr), FirstCreate(tr), Run(tr), E.Run(tr), a);
    SameEnabled(Run(tr), E.Run(tr), a);
    CellsStep(tr, Stamps(tr), FirstCreate(tr), Run(tr), E.Run(tr), a);
  }

  /** After every run without a reported race each cell summarises its location's history. */
  lemma {:induction false} RunCells(tr: Trace)
    requires E.WellFormed(tr) && Passes(tr)
    ensures CellsInv(tr, Stamps(tr), FirstCreate(tr), Run(tr))
    decreases |tr|
  {
    if |tr| > 0 {
      var pre, a := LastRun(tr);
      RunCells(pre);
      RunCellsStep(pre, a);
    }
  }

  // Setting an entry of a vector never lowers it.

  lemma OwnEntryBelow(tr: Trace, st: seq<nat>, from: int, loc: nat, kind: Kind, v: VClock, t: nat, now: nat)
    requires |st| == |tr| && from >= -1 && Summarises(tr, st, from, loc, kind, v)
    requires forall i :: 0 <= i < |tr| && tr[i].t == t ==> st[i] <= now
    ensures At(v, t) <= now
  {
    if At(v, t) != 0 {
      var i: nat :| Latest(tr, st, from, loc, kind, v, t, i);
    }
  }

  lemma CellMayRecord(tr: Trace, st: seq<nat>, start: nat, loc: nat, cell: Cell, t: nat, now: nat)
    requires CellInv(tr, st, start, loc, cell) && forall i :: 0 <= i < |tr| && tr[i].t == t ==> st[i] <= now
    ensures At(cell.read, t) <= now && At(ReadVector(cell), t) <= now && At(WriteVector(cell), t) <= now
  {
    var from := From(tr, start, loc);
    OwnEntryBelow(tr, st, from, loc, NaReads, cell.read, t, now);
    OwnEntryBelow(tr, st, from, loc, AtomicReads, ReadVector(cell), t, now);
    OwnEntryBelow(tr, st, from, loc, AtomicWrites, WriteVector(cell), t, now);
  }

  /** In every run: whichever entry an access sets, it only raises, so the assertion on that holds. */
  lemma {:induction false} EntriesOnlyRise(tr: Trace, a: Action)
    requires E.WellFormed(tr + [a]) && Passes(tr) && IsAccess(a) && FirstCreate(tr) < |tr|
    ensures a.loc in Run(tr).cells && a.t < |Run(tr).g.clocks|
    ensures var c, tc := Run(tr).cells[a.loc], Run(tr).g.clocks[a.t];
      && MaySetAtIndex(c.read, tc.clock, a.t) && MaySetAtIndex(ReadVector(c), tc.clock, a.t)
      && MaySetAtIndex(WriteVector(c), ClockAfter(c, tc, a), a.t)
  {
    E.RunExtend(tr, a);
    RunSettles(tr);
    RunCells(tr);
    Acting(tr, Stamps(tr), FirstCreate(tr), Run(tr), E.Run(tr), a);
    ClocksAreOwn(tr, Stamps(tr), FirstCreate(tr), Run(tr), E.Run(tr), a);
    CellMayRecord(tr, Stamps(tr), FirstCreate(tr), a.loc, Run(tr).cells[a.loc], a.t, OwnStamp(Run(tr).g, a.t));
  }
}
