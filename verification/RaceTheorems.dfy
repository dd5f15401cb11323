/** What the detector reports, over every run: exactly the first access that races in the order it
    checks against or clashes in size, every race of happens-before, and precisely two families of
    accesses that happens-before does order. */
module RaceTheorems {
  import opened VectorClocks
  import opened Actions
  import opened ShadowCells
  import opened ClockRefinement
  import opened HappensBefore
  import opened SetsAreHappensBefore
  import opened RaceDefinition
  import opened CellHistory
  import opened Runs
  import opened FastTrack
  import opened Exactness
  import opened RecordedSizes
  import opened Verdicts
  import D = Detector
  import E = EventSets

  /** No access of the trace clashes in size with an earlier one. */
  ghost predicate NeverClashes(tr: Trace) {
    forall j :: 0 <= j < |tr| ==> !SizesClash(tr[..j], tr[j])
  }

  lemma PrefixesOf(tr: Trace, a: Action)
    ensures RaceFreeAtCheck(tr + [a]) <==> RaceFreeAtCheck(tr) && !RacesAtCheck(tr, a)
    ensures NeverClashes(tr + [a]) <==> NeverClashes(tr) && !SizesClash(tr, a)
  {
    RaceFreePrefix(tr, a);
    var all := tr + [a];
    assert all[..|tr|] == tr && all[|tr|] == a;
    assert forall j :: 0 <= j < |tr| ==> all[..j] == tr[..j] && all[j] == tr[j];
  }

  lemma {:induction false} PassesStep(pre: Trace, a: Action, tr: Trace)
    requires tr == pre + [a] && E.WellFormed(tr)
    requires Passes(pre) <==> RaceFreeAtCheck(pre) && NeverClashes(pre)
    ensures Passes(tr) <==> RaceFreeAtCheck(tr) && NeverClashes(tr)
  {
    RunExtend(pre, a);
    PrefixesOf(pre, a);
    if Passes(pre) {
      ReportsExactly(pre, a);
    }
  }

  /** A whole run passes exactly when no access in it races or clashes with an earlier one. */
  lemma {:induction false} PassesIffRaceFree(tr: Trace)
    requires E.WellFormed(tr)
    ensures Passes(tr) <==> RaceFreeAtCheck(tr) && NeverClashes(tr)
    decreases |tr|
  {
    if |tr| > 0 {
      var pre, a := E.Last(tr);
      PassesIffRaceFree(pre);
      PassesStep(pre, a, tr);
    }
  }

  /** After any run without a report, the detector reports the next access exactly when it races, or
      clashes in size, in the order it checks against: no miss and no earlier false alarm. */
  lemma {:induction false} ReportsExactly(tr: Trace, a: Action)
    requires Situation(tr, a)
    ensures Accepts(Run(tr), a) <==> !RacesAtCheck(tr, a) && !SizesClash(tr, a)
  {
    E.RunExtend(tr, a);
    PassedIsRaceFree(tr);
    ReportsExactlyNext(tr, a);
    ClashIsOnCell(tr, a);
  }

  // One size at a time.

  /** The atomic accesses to the location since its last non-atomic write have the size of `a`. */
  predicate KeepsSize(tr: Trace, a: Action) {
    IsAtomic(a) ==> forall i :: From(tr, FirstCreate(tr), a.loc) < i < |tr| && IsAtomic(tr[i]) && tr[i].loc == a.loc ==>
      tr[i].size == a.size
  }

  /** Between two non-atomic writes to a location all its atomic accesses have one size. */
  predicate SizesKept(tr: Trace) {
    forall j :: 0 <= j < |tr| ==> KeepsSize(tr[..j], tr[j])
  }

  lemma KeptSizeIsRecorded(tr: Trace, st: seq<nat>, start: nat, s: D.State, a: Action)
    requires CellsInv(tr, st, start, s) && IsAtomic(a) && a.loc in s.cells
    requires forall i :: 0 <= i < |tr| && From(tr, start, a.loc) < i && IsAtomic(tr[i]) && tr[i].loc == a.loc ==> tr[i].size == a.size
    ensures SizeIs(s.cells[a.loc], a.size)
  {
    SizeMatches(tr, From(tr, start, a.loc), a.loc, s.cells[a.loc], a.size);
  }

  lemma {:induction false} KeptSizeNeverClashes(tr: Trace, a: Action)
    requires Situation(tr, a) && KeepsSize(tr, a)
    ensures !SizesClash(tr, a)
  {
    Standing(tr, a);
    ClashIsOnCell(tr, a);
    if IsAtomic(a) {
      KeptSizeIsRecorded(tr, Stamps(tr), FirstCreate(tr), Run(tr), a);
    }
  }

  lemma {:induction false} KeptPrefix(pre: Trace, a: Action, tr: Trace)
    requires tr == pre + [a] && SizesKept(tr)
    ensures SizesKept(pre) && KeepsSize(pre, a)
  {
    assert tr[..|pre|] == pre && tr[|pre|] == a;
    assert forall j :: 0 <= j < |pre| ==> pre[..j] == tr[..j] && pre[j] == tr[j];
  }

  lemma {:induction false} KeptSizesStep(pre: Trace, a: Action, tr: Trace)
    requires tr == pre + [a] && E.WellFormed(tr) && KeepsSize(pre, a)
    requires Passes(pre) <==> RaceFreeAtCheck(pre)
    ensures Passes(tr) <==> RaceFreeAtCheck(tr)
  {
    RunExtend(pre, a);
    PrefixesOf(pre, a);
    if Passes(pre) {
      ReportsExactly(pre, a);
      KeptSizeNeverClashes(pre, a);
    }
  }

  /** Then passing is being race free, and nothing else. */
  lemma {:induction false} KeptSizesPass(tr: Trace)
    requires E.WellFormed(tr) && SizesKept(tr)
    ensures Passes(tr) <==> RaceFreeAtCheck(tr)
    decreases |tr|
  {
    if |tr| > 0 {
      var pre, a := E.Last(tr);
      KeptPrefix(pre, a, tr);
      KeptSizesPass(pre);
      KeptSizesStep(pre, a, tr);
    }
  }

  /** Position `i` was published by a release that thread `t` has acquired. */
  ghost predicate Delivered(tr: Trace, t: nat, i: nat) {
    exists x: nat, p: nat, q: nat, j: nat :: DeliveredBy(tr, t, i, x, p, q, j)
  }

  ghost predicate DeliveredBy(tr: Trace, t: nat, i: nat, x: nat, p: nat, q: nat, j: nat) {
    SyncThrough(tr, x, p, q, j) && tr[j].t == t && i in Hb(tr)[x]
  }

  lemma {:induction false} DeliveredIsPast(tr: Trace, t: nat, i: nat)
    requires Delivered(tr, t, i)
    ensures InPast(tr, t, i)
  {
    var x: nat, p: nat, q: nat, j: nat :| DeliveredBy(tr, t, i, x, p, q, j);
    SyncIsBefore(tr, x, p, q, j);
    HbTransitive(tr, i, x, j);
  }

  /** Message passing, with every pair of a release and an acquire ordering: an access whose
      conflicting accesses were all handed over in this way passes. */
  lemma {:induction false} MessagePassing(tr: Trace, a: Action)
    requires Situation(tr, a) && KeepsSize(tr, a)
    requires forall i: nat :: i < |tr| && Conflict(tr[i], a) ==> Delivered(tr, a.t, i)
    ensures Accepts(Run(tr), a)
  {
    forall i: nat | i < |tr| && Conflict(tr[i], a) ensures OrderedAtCheck(tr, a, i) {
      DeliveredIsPast(tr, a.t, i);
    }
    ReportsExactly(tr, a);
    KeptSizeNeverClashes(tr, a);
  }

  // Against happens-before proper.

  /** No miss: every race of happens-before is reported. */
  lemma {:induction false} NoMiss(tr: Trace, a: Action)
    requires Situation(tr, a) && Races(tr, a)
    ensures !Accepts(Run(tr), a)
  {
    var i: nat :| i < |tr| && Conflict(tr[i], a) && !HappensBeforeNext(tr, a, i);
    E.RunExtend(tr, a);
    if InPast(tr, a.t, i) {
      PastIsBefore(tr, a, i);
    }
    ReportsExactly(tr, a);
  }

  /** Whether an atomic access is ordered after everything it conflicts with, once it has acquired. */
  predicate OrderedOnceAcquired(c: Cell, tc: ThreadClocks, a: Action) {
    IsAtomic(a) && WriteWasBefore(c, ClockAfter(c, tc, a)) && (Modifies(a) ==> Leq(c.read, ClockAfter(c, tc, a)))
  }

  /** The first family of false alarms: an acquiring access to a location whose last non-atomic write
      is covered only by the clock that the access is about to acquire from the location. */
  predicate SavedByOwnAcquire(c: Cell, tc: ThreadClocks, a: Action) {
    IsAcquire(a) && !WriteWasBefore(c, tc.clock) && OrderedOnceAcquired(c, tc, a)
  }

  /** The second family: an atomic access that only the size test refuses. */
  predicate RefusedForSize(c: Cell, tc: ThreadClocks, a: Action) {
    SizeRefused(c, tc, a) && OrderedOnceAcquired(c, tc, a)
  }

  /** On its cell, an atomic access races in happens-before exactly when some conflicting access is
      missing from what it sees after its own acquire. */
  lemma OrderedVerdict(tr: Trace, a: Action, j: Judged)
    requires Judgeable(tr, a, j) && IsAtomic(a)
    ensures AllSeen(tr, a, j.after) <==> OrderedOnceAcquired(j.cell, j.tc, a)
  {
    var k' := ClockAfter(j.cell, j.tc, a);
    EpochVerdict(tr, j.st, j.start, j.cell, a, k', j.after);
    if Modifies(a) && WriteWasBefore(j.cell, k') {
      ReadsVerdict(tr, j.st, j.start, j.cell, a, k', j.after);
    }
    SeenApart(tr, a, j.after);
  }

  lemma AlarmOnCell(tr: Trace, a: Action, j: Judged)
    requires Judgeable(tr, a, j)
    ensures !CellAccess(j.cell, j.tc, a).ok && AllSeen(tr, a, j.after) <==>
      SavedByOwnAcquire(j.cell, j.tc, a) || RefusedForSize(j.cell, j.tc, a)
  {
    if IsAtomic(a) {
      OrderedVerdict(tr, a, j);
      AtomicTests(j.cell, j.tc, a);
    } else {
      CellVerdict(tr, a, j);
    }
  }

  /** Exactly when the detector reports an access that is ordered in happens-before. */
  lemma {:induction false} FalseAlarmIff(tr: Trace, a: Action)
    requires Situation(tr, a) && IsAccess(a) && FirstCreate(tr) < |tr|
    ensures a.loc in Run(tr).cells && a.t < |Run(tr).g.clocks|
    ensures var c, tc := Run(tr).cells[a.loc], Run(tr).g.clocks[a.t];
      !Accepts(Run(tr), a) && !Races(tr, a) <==> SavedByOwnAcquire(c, tc, a) || RefusedForSize(c, tc, a)
  {
    Standing(tr, a);
    PassedIsRaceFree(tr);
    JudgedFacts(tr, a);
    AcceptsIsCellAccess(Run(tr), a);
    AlarmOnCell(tr, a, JudgedOn(tr, a));
    forall i: nat | i < |tr| ensures i in SeenAfter(E.Run(tr), a) <==> HappensBeforeNext(tr, a, i) {
      NextIsSet(tr, a, i);
    }
  }
}
