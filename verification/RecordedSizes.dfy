/** The access sizes that the cells record are those that the trace says are on record. */
module RecordedSizes {
  import opened Wrappers
  import opened VectorClocks
  import opened Actions
  import opened ShadowCells
  import opened ClockRefinement
  import opened RaceDefinition
  import opened CellHistory
  import opened Runs
  import opened FastTrack
  import opened Exactness
  import opened Verdicts
  import D = Detector
  import E = EventSets

  /** A cell keeps this record. */
  predicate Keeps(c: Cell, r: SizeRecord) {
    match r
    case NoSize => c.atomicOps.None?
    case OneSize(z) => c.atomicOps.Some? && c.atomicOps.value.size == Some(z)
    case SeveralSizes => c.atomicOps.Some? && c.atomicOps.value.size == None
  }

  ghost predicate AtomicsSeen(tr: Trace, loc: nat, m: set<nat>) {
    forall i :: 0 <= i < |tr| && IsAtomic(tr[i]) && tr[i].loc == loc ==> i in m
  }

  /** Once the last non-atomic write is seen, the two vectors decide whether all atomic accesses are. */
  lemma AtomicsDecided(tr: Trace, a: Action, j: Judged)
    requires Judgeable(tr, a, j) && WriteWasBefore(j.cell, j.tc.clock)
    ensures Leq(ReadVector(j.cell), j.tc.clock) && Leq(WriteVector(j.cell), j.tc.clock) <==> AtomicsSeen(tr, a.loc, j.before)
  {
    CellDecides(tr, j.st, j.start, a.loc, j.cell, a.t, j.tc.clock, j.before);
    EpochCovers(tr, j.st, j.start, a.loc, j.cell, a.t, j.tc.clock, j.before);
    KindsAreAtomics(tr, From(tr, j.start, a.loc), a.loc, j.before);
  }

  lemma KindsAreAtomics(tr: Trace, from: int, loc: nat, m: set<nat>)
    requires forall i :: 0 <= i < |tr| && IsRaceAccess(tr[i]) && tr[i].loc == loc ==> (i <= from || IsNaWrite(tr[i]) ==> i in m)
    ensures KindSeen(tr, from, loc, AtomicReads, m) && KindSeen(tr, from, loc, AtomicWrites, m) <==> AtomicsSeen(tr, loc, m)
  {
    forall i | 0 <= i < |tr| && IsAtomic(tr[i]) && tr[i].loc == loc
      ensures OfKind(tr[i], AtomicReads, loc) || OfKind(tr[i], AtomicWrites, loc)
    {
    }
  }

  lemma LoadRecords(tr: Trace, a: Action, j: Judged, prev: SizeRecord)
    requires Judgeable(tr, a, j) && a.Load? && Keeps(j.cell, prev) && CellAccess(j.cell, j.tc, a).ok
    ensures Keeps(CellAccess(j.cell, j.tc, a).cell, RecordAfter(prev, a, AtomicsSeen(tr, a.loc, j.before)))
  {
    LoadEffect(j.cell, j.tc, a.t, a.size, Acquires(a.rord));
    AtomicsDecided(tr, a, j);
    LoadKeeps(j.cell, j.tc.clock, a, prev, AtomicsSeen(tr, a.loc, j.before));
  }

  lemma LoadKeeps(c: Cell, k: VClock, a: Action, prev: SizeRecord, ordered: bool)
    requires a.Load? && Keeps(c, prev) && (Leq(ReadVector(c), k) && Leq(WriteVector(c), k) <==> ordered)
    ensures Keeps(LoadedCell(c, k, a.t, SizeAfterLoad(c, k, a.size)), RecordAfter(prev, a, ordered))
  {
    KeepsSize(c, prev, a.size);
  }

  lemma KeepsSize(c: Cell, r: SizeRecord, size: nat)
    requires Keeps(c, r)
    ensures SizeIs(c, size) <==> r == NoSize || r == OneSize(size)
  {
  }

  lemma WriteRecords(c: Cell, tc: ThreadClocks, a: Action, prev: SizeRecord, ordered: bool)
    requires Modifies(a) && CellAccess(c, tc, a).ok
    ensures Keeps(CellAccess(c, tc, a).cell, RecordAfter(prev, a, ordered))
  {
    if a.Store? {
      StoreEffect(c, tc, a.t, a.size, Releases(a.word));
    } else {
      RmwEffect(c, tc, a.t, a.size, RwAcquires(a.aord), RwReleases(a.aord));
    }
  }

  lemma PlainRecords(c: Cell, tc: ThreadClocks, a: Action)
    requires IsAccess(a) && !IsAtomic(a) && CellAccess(c, tc, a).ok
    ensures CellAccess(c, tc, a).cell.atomicOps == if a.NaWrite? then None else c.atomicOps
  {
  }

  /** Nothing is recorded before the second thread exists. */
  lemma EarlyCell(tr: Trace, st: seq<nat>, start: nat, loc: nat, cell: Cell)
    requires CellInv(tr, st, start, loc, cell) && start == |tr|
    ensures cell.atomicOps == None
  {
  }

  lemma SecondThread(tr: Trace)
    ensures FirstCreate(tr) < |tr| <==> exists b :: b in tr && b.Create?
  {
    if FirstCreate(tr) < |tr| {
      assert tr[FirstCreate(tr)] in tr;
    }
  }

  /** The record, one step on. */
  ghost predicate NextRecord(a: Action, loc: nat, concurrent: bool, ordered: bool, prev: SizeRecord, next: SizeRecord) {
    next ==
      if (a.NaWrite? || a.Allocate?) && a.loc == loc then NoSize
      else if IsAtomic(a) && a.loc == loc && concurrent then RecordAfter(prev, a, ordered)
      else prev
  }

  lemma {:induction false} RecordedStep(tr: Trace, a: Action, loc: nat, ordered: bool)
    requires IsAccess(a) ==> (ordered <==> AtomicsInPast(tr, a.t, a.loc))
    ensures NextRecord(a, loc, FirstCreate(tr) < |tr|, ordered, RecordedSize(tr, loc), RecordedSize(tr + [a], loc))
  {
    assert (tr + [a])[..|tr|] == tr;
    SecondThread(tr);
  }

  /** What an access is judged on, if it is one that the detector checks. */
  ghost predicate Judges(tr: Trace, start: nat, s: D.State, a: Action, ordered: bool, j: Judged)
    requires a.t < |s.g.clocks|
  {
    IsAccess(a) && start < |tr| && a.loc in s.cells ==>
      && Judgeable(tr, a, j) && j.cell == s.cells[a.loc] && j.tc == s.g.clocks[a.t]
      && (ordered <==> AtomicsSeen(tr, a.loc, j.before))
  }

  lemma AccessRecords(tr: Trace, a: Action, j: Judged, ordered: bool, prev: SizeRecord, next: SizeRecord)
    requires Judgeable(tr, a, j) && (ordered <==> AtomicsSeen(tr, a.loc, j.before)) && Keeps(j.cell, prev)
    requires CellAccess(j.cell, j.tc, a).ok && NextRecord(a, a.loc, true, ordered, prev, next)
    ensures Keeps(CellAccess(j.cell, j.tc, a).cell, next)
  {
    if a.Load? {
      LoadRecords(tr, a, j, prev);
    } else if Modifies(a) {
      WriteRecords(j.cell, j.tc, a, prev, ordered);
    } else {
      PlainRecords(j.cell, j.tc, a);
    }
  }

  /** One location, one step. */
  lemma LocationRecords(tr: Trace, start: nat, s: D.State, a: Action, loc: nat, cell': Cell,
                        ordered: bool, j: Judged, prev: SizeRecord, next: SizeRecord)
    requires a.t < |s.g.clocks| && CellTurns(s, a, loc, cell') && (s.g.multiThreaded <==> start < |tr|)
    requires !s.g.multiThreaded && loc in s.cells ==> s.cells[loc].atomicOps == None
    requires Judges(tr, start, s, a, ordered, j) && NextRecord(a, loc, start < |tr|, ordered, prev, next)
    requires loc in s.cells ==> Keeps(s.cells[loc], prev)
    ensures Keeps(cell', next)
  {
    if s.g.multiThreaded && IsAccess(a) && a.loc == loc {
      AccessRecords(tr, a, j, ordered, prev, next);
    } else if a.Allocate? && a.loc == loc {
    } else if !s.g.multiThreaded {
      UntouchedRecords(a, loc, false, ordered, prev, next, s.cells[loc]);
    } else {
      assert next == prev;
    }
  }

  lemma UntouchedRecords(a: Action, loc: nat, concurrent: bool, ordered: bool, prev: SizeRecord, next: SizeRecord, c: Cell)
    requires !concurrent && NextRecord(a, loc, concurrent, ordered, prev, next) && Keeps(c, prev) && c.atomicOps == None
    ensures Keeps(c, next)
  {
  }

  lemma {:induction false} JudgesNext(tr: Trace, a: Action) returns (j: Judged, ordered: bool)
    requires Situation(tr, a) && a.t < |Run(tr).g.clocks|
    ensures IsAccess(a) ==> (ordered <==> AtomicsInPast(tr, a.t, a.loc))
    ensures Judges(tr, FirstCreate(tr), Run(tr), a, ordered, j)
  {
    j, ordered := Judged(NewCell(0, 0), NO_CLOCKS, [], 0, {}, {}), true;
    if IsAccess(a) {
      E.RunExtend(tr, a);
      PassedIsRaceFree(tr);
      JudgedFacts(tr, a);
      j, ordered := JudgedOn(tr, a), AtomicsInPast(tr, a.t, a.loc);
      forall i: nat | i < |tr| ensures i in E.Run(tr).threads[a.t].past <==> InPast(tr, a.t, i) {
        PastIsSet(tr, a.t, i);
      }
    }
  }

  ghost predicate AllKeep(tr: Trace, s: D.State) {
    forall loc :: loc in s.cells ==> Keeps(s.cells[loc], RecordedSize(tr, loc))
  }

  lemma {:induction false} Grounds(tr: Trace, a: Action)
    requires Situation(tr, a)
    ensures CellsInv(tr, Stamps(tr), FirstCreate(tr), Run(tr)) && a.t < |Run(tr).g.clocks|
    ensures FirstCreate(tr) <= |tr| && (Run(tr).g.multiThreaded <==> FirstCreate(tr) < |tr|)
  {
    Standing(tr, a);
  }

  lemma {:induction false} LocationKeeps(tr: Trace, a: Action, loc: nat, cell': Cell)
    requires Situation(tr, a) && a.t < |Run(tr).g.clocks| && CellTurns(Run(tr), a, loc, cell')
    requires loc in Run(tr).cells ==> Keeps(Run(tr).cells[loc], RecordedSize(tr, loc))
    ensures Keeps(cell', RecordedSize(tr + [a], loc))
  {
    Grounds(tr, a);
    var j, ordered := JudgesNext(tr, a);
    RecordedStep(tr, a, loc, ordered);
    if FirstCreate(tr) == |tr| && loc in Run(tr).cells {
      EarlyCell(tr, Stamps(tr), FirstCreate(tr), loc, Run(tr).cells[loc]);
    }
    LocationRecords(tr, FirstCreate(tr), Run(tr), a, loc, cell', ordered, j, RecordedSize(tr, loc), RecordedSize(tr + [a], loc));
  }

  lemma {:induction false} RecordsStep(pre: Trace, a: Action, tr: Trace)
    requires tr == pre + [a] && Situation(pre, a) && Accepts(Run(pre), a) && AllKeep(pre, Run(pre))
    ensures AllKeep(tr, Run(tr))
  {
    Standing(pre, a);
    RunExtend(pre, a);
    forall loc | loc in Run(tr).cells ensures Keeps(Run(tr).cells[loc], RecordedSize(tr, loc)) {
      StepTurns(Run(pre), a, loc, Run(tr).cells);
      LocationKeeps(pre, a, loc, Run(tr).cells[loc]);
    }
  }

  /** After every run without a report each cell has on record what the trace says. */
  lemma {:induction false} RunRecords(tr: Trace)
    requires E.WellFormed(tr) && Passes(tr)
    ensures AllKeep(tr, Run(tr))
    decreases |tr|
  {
    if |tr| > 0 {
      var pre, a := LastRun(tr);
      RunRecords(pre);
      RecordsStep(pre, a, tr);
    }
  }

  /** The mixed-size test on the cell is the one declared on the trace. */
  lemma {:induction false} ClashIsOnCell(tr: Trace, a: Action)
    requires Situation(tr, a)
    ensures CellClash(tr, a) <==> SizesClash(tr, a)
  {
    if IsAtomic(a) {
      Standing(tr, a);
      RunRecords(tr);
      KeepsSize(Run(tr).cells[a.loc], RecordedSize(tr, a.loc), a.size);
    }
  }
}
