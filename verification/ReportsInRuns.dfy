/** Reports in whole runs: the message names an earlier access of the trace that really conflicts
    with the reported one and really is not ordered before it. */
module ReportsInRuns {
  import opened Wrappers
  import opened VectorClocks
  import opened Actions
  import opened ShadowCells
  import opened ClockRefinement
  import opened RaceDefinition
  import opened CellHistory
  import opened Runs
  import opened FastTrack
  import opened Exactness
  import opened Verdicts
  import opened RecordedSizes
  import opened RaceReports
  import D = Detector
  import E = EventSets

  /** Whether an action is of the type that a report names. */
  predicate Named(a: Action, other: AccessType) {
    match other
    case NaReadAccess => a.NaRead?
    case NaWriteAccess(wt) => WrittenAs(a, wt)
    case AtomicLoadAccess => Reads(a)
    case _ => Modifies(a)
  }

  /** Whether the reported access itself is of the type that its report gives it. */
  predicate Reported(a: Action, own: AccessType) {
    match own
    case NaReadAccess => a.NaRead?
    case NaWriteAccess(wt) => a.NaWrite? && a.wt == wt
    case AtomicLoadAccess => a.Load?
    case AtomicStoreAccess => a.Store?
    case AtomicRmwAccess => a.Rmw?
  }

  /** A timestamp in a cell that a clock has not reached belongs to an unseen access. */
  lemma StampIsAccess(
      tr: Trace, st: seq<nat>, start: nat, loc: nat, cell: Cell, t: nat, k: VClock, m: set<nat>, other: AccessType, u: nat)
    returns (i: nat)
    requires Verdictable(tr, st, start, loc, cell, t, k, m) && BlamedStamp(cell, other, u) > At(k, u)
    requires other.NaWriteAccess? ==> other.wt == cell.writeType
    ensures i < |tr| && i !in m && tr[i].t == u && st[i] == BlamedStamp(cell, other, u)
    ensures Named(tr[i], other) && IsRaceAccess(tr[i]) && tr[i].loc == loc
  {
    var from := From(tr, start, loc);
    match other
    case NaReadAccess =>
      i :| Latest(tr, st, from, loc, NaReads, cell.read, u, i);
    case NaWriteAccess(_) =>
      var w := LastNaWrite(tr, loc);
      if w <= start {
        EarlyEpochIsSeen(tr, st, start, loc, cell, k, m);
      }
      i := w;
    case AtomicLoadAccess =>
      i :| Latest(tr, st, from, loc, AtomicReads, ReadVector(cell), u, i);
    case _ =>
      i :| Latest(tr, st, from, loc, AtomicWrites, WriteVector(cell), u, i);
  }

  lemma {:induction false} EarlyEpochIsSeen(tr: Trace, st: seq<nat>, start: nat, loc: nat,
                                            cell: Cell, k: VClock, m: set<nat>)
    requires CellInv(tr, st, start, loc, cell) && Sees(tr, st, start, k, m) && LastNaWrite(tr, loc) <= start
    ensures cell.writeStamp <= At(k, cell.writeIndex)
  {
    if !(cell.writeIndex == 0 && cell.writeStamp == 0) {
      var i: nat :| EarlyWrite(tr, st, start, cell, i);
    }
  }

  lemma RmwBlamedWasThere(c: Cell, tc: ThreadClocks, t: nat, size: nat, acquire: bool, release: bool, other: AccessType, u: nat)
    requires var r := AtomicRmw(c, tc, t, size, acquire, release); !r.ok && BlamedStamp(r.cell, other, u) > At(r.clocks.clock, u)
    ensures BlamedStamp(c, other, u) == BlamedStamp(AtomicRmw(c, tc, t, size, acquire, release).cell, other, u)
  {
    var h := AtomicLoad(c, tc, t, size, acquire);
    DetectKeeps(c, tc.clock, t, size, other, u);
    if h.ok {
      DetectKeeps(h.cell, h.clocks.clock, t, size, other, u);
      JoinIsLeastUpperBound(tc.clock, SyncVector(h.cell), tc.clock);
    }
  }

  /** A failed check leaves no new timestamp that could be blamed. */
  lemma BlamedWasThere(c: Cell, tc: ThreadClocks, t: nat, a: Attempt, other: AccessType, u: nat)
    requires !Perform(c, tc, t, a).ok
    requires var r := Perform(c, tc, t, a); BlamedStamp(r.cell, other, u) > At(r.clocks.clock, u)
    ensures BlamedStamp(c, other, u) == BlamedStamp(Perform(c, tc, t, a).cell, other, u)
  {
    match a
    case TryRmw(size, acquire, release) => RmwBlamedWasThere(c, tc, t, size, acquire, release, other, u);
    case TryLoad(size, _) => DetectKeeps(c, tc.clock, t, size, other, u);
    case TryStore(size, _) => DetectKeeps(c, tc.clock, t, size, other, u);
    case _ =>
  }

  /** The atomic checks only set the acting thread's own timestamp, to what its clock has. */
  lemma DetectKeeps(c: Cell, k: VClock, t: nat, size: nat, other: AccessType, u: nat)
    ensures var x := AtomicReadDetect(c, k, t, size).cell;
      BlamedStamp(x, other, u) == BlamedStamp(c, other, u) || (u == t && BlamedStamp(x, other, u) == At(k, u))
    ensures var x := AtomicWriteDetect(c, k, t, size).cell;
      BlamedStamp(x, other, u) == BlamedStamp(c, other, u) || (u == t && BlamedStamp(x, other, u) == At(k, u))
  {
  }

  /** The clock that a failed check was made with. */
  function FailedWith(j: Judged, a: Action): VClock
    requires IsAccess(a)
  {
    CellAccess(j.cell, j.tc, a).clocks.clock
  }

  /** A read-modify-write that its own read half refuses for its size. */
  predicate ReadHalfRefused(c: Cell, tc: ThreadClocks, a: Action) {
    a.Rmw? && !SizeFits(c, a.size, tc.clock, false, tc.clock)
  }

  /** The failed check used the clock before the access's own acquire, or the one after it; a
      read-modify-write that never got to acquire failed on a write, or its read half was refused. */
  lemma FailedWithEither(j: Judged, a: Action)
    requires IsAccess(a) && !CellAccess(j.cell, j.tc, a).ok
    ensures FailedWith(j, a) == j.tc.clock || (a.Rmw? && FailedWith(j, a) == ClockAfter(j.cell, j.tc, a))
    ensures a.Rmw? && FailedWith(j, a) != ClockAfter(j.cell, j.tc, a) ==>
      ReadHalfRefused(j.cell, j.tc, a) || !WriteWasBefore(CellAccess(j.cell, j.tc, a).cell, j.tc.clock)
  {
    if a.Rmw? {
      RmwClocks(j.cell, j.tc, a.t, a.size, RwAcquires(a.aord), RwReleases(a.aord));
      assert AcquiredClocks(j.tc, SyncVector(j.cell), RwAcquires(a.aord)).clock == ClockAfter(j.cell, j.tc, a);
    } else {
      OthersKeepClock(j.cell, j.tc, a);
    }
  }

  /** A refused access that is not a read-modify-write leaves its thread's clocks alone. */
  lemma OthersKeepClock(c: Cell, tc: ThreadClocks, a: Action)
    requires IsAccess(a) && !a.Rmw? && !CellAccess(c, tc, a).ok
    ensures CellAccess(c, tc, a).clocks == tc
  {
  }

  lemma RmwClocks(c: Cell, tc: ThreadClocks, t: nat, size: nat, acquire: bool, release: bool)
    ensures var r := AtomicRmw(c, tc, t, size, acquire, release);
      || r.clocks == AcquiredClocks(tc, SyncVector(c), acquire)
      || (r.clocks == tc && (!SizeFits(c, size, tc.clock, false, tc.clock) || !WriteWasBefore(r.cell, tc.clock)))
  {
    var h := AtomicLoad(c, tc, t, size, acquire);
    LoadEffect(c, tc, t, size, acquire);
    if h.ok {
      RmwKeepsClock(h.cell, h.clocks, t, size, release);
    } else {
      FailedLoadKeepsEpoch(c, tc, t, size, acquire);
    }
  }

  lemma RmwKeepsClock(c: Cell, tc: ThreadClocks, t: nat, size: nat, release: bool)
    ensures RmwWrite(c, tc, t, size, release).clocks == tc
  {
  }

  lemma FailedLoadKeepsEpoch(c: Cell, tc: ThreadClocks, t: nat, size: nat, acquire: bool)
    requires !AtomicLoad(c, tc, t, size, acquire).ok
    ensures var r := AtomicLoad(c, tc, t, size, acquire);
      r.clocks == tc && r.cell.(atomicOps := None) == c.(atomicOps := None)
  {
  }

  /** What a named access has to do with the reported one: unless a size is quoted they race by the
      definition, and if one is they are atomic, of different sizes, and one of them writes. */
  predicate NamedRightly(x: Action, a: Action, rep: Report)
    requires rep.Report?
  {
    if rep.otherSize == None then Conflict(x, a) else SizeConflict(x, a)
  }

  lemma NamedConflicts(x: Action, a: Action, rep: Report)
    requires IsAccess(a) && IsRaceAccess(x) && x.loc == a.loc && x.t != a.t && rep.Report? && Named(x, rep.other)
    requires !(ReadType(TypeOf(AttemptOf(a))) && ReadType(rep.other))
    requires rep.otherSize == None <==> !(AtomicType(TypeOf(AttemptOf(a))) && AtomicType(rep.other))
    ensures NamedRightly(x, a, rep)
  {
  }

  lemma FailureKeepsType(c: Cell, tc: ThreadClocks, t: nat, a: Attempt)
    requires !Perform(c, tc, t, a).ok
    ensures Perform(c, tc, t, a).cell.writeType == c.writeType
  {
  }

  /** What is blamed after a failed check was in the cell before it. */
  lemma BlamedBefore(j: Judged, a: Action, rep: Report)
    requires IsAccess(a) && !CellAccess(j.cell, j.tc, a).ok
    requires BlamesUnordered(rep, CellAccess(j.cell, j.tc, a).cell, TypeOf(AttemptOf(a)), FailedWith(j, a))
    ensures BlamedStamp(j.cell, rep.other, rep.index) > At(FailedWith(j, a), rep.index)
    ensures rep.other.NaWriteAccess? ==> rep.other.wt == j.cell.writeType
  {
    BlamedWasThere(j.cell, j.tc, a.t, AttemptOf(a), rep.other, rep.index);
    FailureKeepsType(j.cell, j.tc, a.t, AttemptOf(a));
  }

  /** A failed access on its cell: what the report names is an access of the trace. */
  lemma ReportNamesAccess(tr: Trace, a: Action, j: Judged, k: VClock, m: set<nat>, rep: Report) returns (i: nat)
    requires IsAccess(a) && Verdictable(tr, j.st, j.start, a.loc, j.cell, a.t, k, m)
    requires rep.Report? && BlamedStamp(j.cell, rep.other, rep.index) > At(k, rep.index)
    requires rep.other.NaWriteAccess? ==> rep.other.wt == j.cell.writeType
    requires !(ReadType(TypeOf(AttemptOf(a))) && ReadType(rep.other))
    requires rep.otherSize == None <==> !(AtomicType(TypeOf(AttemptOf(a))) && AtomicType(rep.other))
    ensures i < |tr| && tr[i].t == rep.index && Named(tr[i], rep.other) && i !in m && NamedRightly(tr[i], a, rep)
  {
    i := StampIsAccess(tr, j.st, j.start, a.loc, j.cell, a.t, k, m, rep.other, rep.index);
    assert tr[i].t != a.t;
    NamedConflicts(tr[i], a, rep);
  }

  /** The report blames by the clock that the failed check used, which decides the set to look in. */
  lemma JudgedBlame(tr: Trace, a: Action, j: Judged, rep: Report) returns (i: nat)
    requires Judgeable(tr, a, j) && !CellAccess(j.cell, j.tc, a).ok
    requires FailedWith(j, a) == j.tc.clock || (a.Rmw? && FailedWith(j, a) == ClockAfter(j.cell, j.tc, a))
    requires BlamesUnordered(rep, CellAccess(j.cell, j.tc, a).cell, TypeOf(AttemptOf(a)), FailedWith(j, a))
    requires a.Rmw? && FailedWith(j, a) != ClockAfter(j.cell, j.tc, a) ==>
      ReadHalfRefused(j.cell, j.tc, a) || rep.other.NaWriteAccess?
    ensures NamesUnseen(tr, a, j, rep, i)
  {
    BlamedBefore(j, a, rep);
    if FailedWith(j, a) == ClockAfter(j.cell, j.tc, a) {
      i := ReportNamesAccess(tr, a, j, ClockAfter(j.cell, j.tc, a), j.after, rep);
    } else {
      i := ReportNamesAccess(tr, a, j, j.tc.clock, j.before, rep);
    }
  }

  /** The report on one access that its cell refuses. */
  function ReportOn(c: Cell, tc: ThreadClocks, a: Action): Report
    requires IsAccess(a)
  {
    var r := CellAccess(c, tc, a);
    ReportRace(r.cell, TypeOf(AttemptOf(a)), SizeOfAttempt(AttemptOf(a)), r.clocks.clock)
  }

  lemma ReportsOwn(c: Cell, tc: ThreadClocks, a: Action, rep: Report)
    requires IsAccess(a) && rep == ReportOn(c, tc, a) && rep.Report?
    ensures Reported(a, rep.own)
  {
    var r := CellAccess(c, tc, a);
    assert rep.own == TypeOf(AttemptOf(a));
  }

  /** The report blames by the clock that the failed check used, and an access that never got to
      acquire is blamed on a write. */
  lemma BlameFacts(j: Judged, a: Action, rep: Report)
    requires IsAccess(a) && !CellAccess(j.cell, j.tc, a).ok && rep == ReportOn(j.cell, j.tc, a)
    ensures FailedWith(j, a) == j.tc.clock || (a.Rmw? && FailedWith(j, a) == ClockAfter(j.cell, j.tc, a))
    ensures a.Rmw? && FailedWith(j, a) != ClockAfter(j.cell, j.tc, a) ==>
      ReadHalfRefused(j.cell, j.tc, a) || (rep.Report? && rep.other.NaWriteAccess?)
  {
    FailedWithEither(j, a);
    if a.Rmw? && FailedWith(j, a) != ClockAfter(j.cell, j.tc, a) && !ReadHalfRefused(j.cell, j.tc, a) {
      EpochBlamed(CellAccess(j.cell, j.tc, a).cell, a.size, j.tc.clock);
    }
  }

  lemma Blamed(j: Judged, a: Action, rep: Report)
    requires IsAccess(a) && !CellAccess(j.cell, j.tc, a).ok && SizeOfAttempt(AttemptOf(a)) > 0 && SaneSize(j.cell)
    requires rep == ReportOn(j.cell, j.tc, a)
    ensures if StoreBehindMixedLoads(j.cell, TypeOf(AttemptOf(a)), j.tc.clock) then rep == DescriptionPanic
            else BlamesUnordered(rep, CellAccess(j.cell, j.tc, a).cell, TypeOf(AttemptOf(a)), FailedWith(j, a))
  {
    FailureIsBlamed(j.cell, j.tc, a.t, AttemptOf(a));
  }

  lemma JudgedReport(tr: Trace, a: Action, j: Judged, rep: Report) returns (i: nat)
    requires Judgeable(tr, a, j) && !CellAccess(j.cell, j.tc, a).ok && rep == ReportOn(j.cell, j.tc, a)
    requires BlamesUnordered(rep, CellAccess(j.cell, j.tc, a).cell, TypeOf(AttemptOf(a)), FailedWith(j, a))
    ensures NamesUnseen(tr, a, j, rep, i)
  {
    BlameFacts(j, a, rep);
    i := JudgedBlame(tr, a, j, rep);
  }

  /** The report names position `i`, and the check that it was missed by is right. */
  predicate NamesUnseen(tr: Trace, a: Action, j: Judged, rep: Report, i: nat) {
    && rep.Report? && i < |tr| && tr[i].t == rep.index && Named(tr[i], rep.other)
    && NamedRightly(tr[i], a, rep) && i !in j.before
    && (ReadHalfRefused(j.cell, j.tc, a) || !SeenAtCheck(tr[i], a, j.before, j.after, i))
  }

  /** An unseen write epoch is what an atomic access gets blamed on first. */
  lemma EpochBlamed(c: Cell, size: nat, k: VClock)
    requires !WriteWasBefore(c, k)
    ensures ReportRace(c, AtomicRmwAccess, size, k) == Report(AtomicRmwAccess, NaWriteAccess(c.writeType), c.writeIndex, None)
  {
  }

  /** The size that a report quotes of the other access: the one on record; zero if there are several,
      or if the read half of a read-modify-write made it several. */
  predicate Quotes(record: SizeRecord, a: Action, readHalfRefused: bool, z: nat)
    requires IsAtomic(a)
  {
    if record == SeveralSizes || (a.Rmw? && !readHalfRefused) then z == 0 else record == OneSize(z) && z != a.size
  }

  lemma LoadQuotes(c: Cell, tc: ThreadClocks, index: nat, size: nat, acquire: bool, access: AccessType)
    requires AtomicType(access) && !AtomicLoad(c, tc, index, size, acquire).ok
    ensures var r := AtomicLoad(c, tc, index, size, acquire);
      var rep := ReportRace(r.cell, access, size, r.clocks.clock);
      rep.Report? && rep.otherSize.Some? ==>
        && !SizeFits(c, size, tc.clock, false, tc.clock) && OtherSizeOnRecord(c, size)
        && rep.otherSize.value == SizeOr(c.atomicOps.value.size, 0)
  {
    LoadEffect(c, tc, index, size, acquire);
  }

  lemma WriteQuotes(c: Cell, k: VClock, index: nat, size: nat, access: AccessType)
    requires AtomicType(access)
    ensures var r := AtomicWriteDetect(c, k, index, size);
      var rep := ReportRace(r.cell, access, size, k);
      !r.ok && rep.Report? && rep.otherSize.Some? ==>
        OtherSizeOnRecord(c, size) && rep.otherSize.value == SizeOr(c.atomicOps.value.size, 0)
  {
  }

  /** After a read half that passed, a write half refused for its size saw several. */
  lemma HalfQuotes(c: Cell, tc: ThreadClocks, index: nat, size: nat, acquire: bool, release: bool)
    requires AtomicLoad(c, tc, index, size, acquire).ok && !AtomicRmw(c, tc, index, size, acquire, release).ok
    ensures var r := AtomicRmw(c, tc, index, size, acquire, release);
      var rep := ReportRace(r.cell, AtomicRmwAccess, size, r.clocks.clock);
      rep.Report? && rep.otherSize.Some? ==> rep.otherSize.value == 0
  {
    var h := AtomicLoad(c, tc, index, size, acquire);
    HalfSize(c, tc, index, size, acquire);
    WriteQuotes(h.cell, h.clocks.clock, index, size, AtomicRmwAccess);
  }

  lemma HalfSize(c: Cell, tc: ThreadClocks, index: nat, size: nat, acquire: bool)
    requires AtomicLoad(c, tc, index, size, acquire).ok
    ensures AtomicLoad(c, tc, index, size, acquire).cell.atomicOps.value.size in {Some(size), None}
  {
    LoadEffect(c, tc, index, size, acquire);
  }

  lemma RefusedHalf(c: Cell, tc: ThreadClocks, index: nat, size: nat, acquire: bool, release: bool)
    requires !AtomicLoad(c, tc, index, size, acquire).ok
    ensures AtomicRmw(c, tc, index, size, acquire, release) == AtomicLoad(c, tc, index, size, acquire)
  {
  }

  /** The quoted size of a read-modify-write, in terms of the cell before it. */
  lemma RmwQuotes(c: Cell, tc: ThreadClocks, index: nat, size: nat, acquire: bool, release: bool)
    requires !AtomicRmw(c, tc, index, size, acquire, release).ok
    ensures var r := AtomicRmw(c, tc, index, size, acquire, release);
      var rep := ReportRace(r.cell, AtomicRmwAccess, size, r.clocks.clock);
      rep.Report? && rep.otherSize.Some? ==>
        if SizeFits(c, size, tc.clock, false, tc.clock) then rep.otherSize.value == 0
        else OtherSizeOnRecord(c, size) && rep.otherSize.value == SizeOr(c.atomicOps.value.size, 0)
  {
    if AtomicLoad(c, tc, index, size, acquire).ok {
      HalfQuotes(c, tc, index, size, acquire, release);
      assert SizeFits(c, size, tc.clock, false, tc.clock) by {
        LoadEffect(c, tc, index, size, acquire);
      }
    } else {
      LoadQuotes(c, tc, index, size, acquire, AtomicRmwAccess);
      RefusedHalf(c, tc, index, size, acquire, release);
    }
  }

  lemma PlainQuotes(c: Cell, access: AccessType, size: nat, k: VClock)
    requires !AtomicType(access)
    ensures var rep := ReportRace(c, access, size, k); rep.Report? ==> rep.otherSize == None
  {
  }

  /** The quoted size is the one on record. */
  lemma SizeQuoted(c: Cell, a: Action, record: SizeRecord, refused: bool, z: nat)
    requires IsAtomic(a) && Keeps(c, record)
    requires if a.Rmw? && !refused then z == 0
             else OtherSizeOnRecord(c, a.size) && z == SizeOr(c.atomicOps.value.size, 0)
    ensures Quotes(record, a, refused, z)
  {
  }

  lemma StoreQuotes(c: Cell, tc: ThreadClocks, index: nat, size: nat, release: bool)
    requires !AtomicStore(c, tc, index, size, release).ok
    ensures var r := AtomicStore(c, tc, index, size, release);
      var rep := ReportRace(r.cell, AtomicStoreAccess, size, r.clocks.clock);
      rep.Report? && rep.otherSize.Some? ==>
        OtherSizeOnRecord(c, size) && rep.otherSize.value == SizeOr(c.atomicOps.value.size, 0)
  {
    WriteQuotes(c, tc.clock, index, size, AtomicStoreAccess);
  }

  lemma AttemptQuotes(c: Cell, tc: ThreadClocks, index: nat, a: Attempt)
    requires !Perform(c, tc, index, a).ok
    ensures var r := Perform(c, tc, index, a);
      var rep := ReportRace(r.cell, TypeOf(a), SizeOfAttempt(a), r.clocks.clock);
      rep.Report? && rep.otherSize.Some? ==>
        && AtomicType(TypeOf(a))
        && if a.TryRmw? && SizeFits(c, a.size, tc.clock, false, tc.clock) then rep.otherSize.value == 0
           else OtherSizeOnRecord(c, SizeOfAttempt(a)) && rep.otherSize.value == SizeOr(c.atomicOps.value.size, 0)
  {
    match a
    case TryRead => PlainQuotes(NonAtomicRead(c, tc.clock, index).cell, NaReadAccess, 1, tc.clock);
    case TryWrite(wt) => PlainQuotes(NonAtomicWrite(c, tc.clock, index, wt).cell, NaWriteAccess(wt), 1, tc.clock);
    case TryLoad(size, acquire) => LoadQuotes(c, tc, index, size, acquire, AtomicLoadAccess);
    case TryStore(size, release) => StoreQuotes(c, tc, index, size, release);
    case TryRmw(size, acquire, release) => RmwQuotes(c, tc, index, size, acquire, release);
  }

  lemma QuotesRecord(c: Cell, tc: ThreadClocks, a: Action, record: SizeRecord, rep: Report)
    requires IsAccess(a) && !CellAccess(c, tc, a).ok && Keeps(c, record) && rep == ReportOn(c, tc, a)
    ensures rep.Report? && rep.otherSize.Some? ==> IsAtomic(a) && Quotes(record, a, ReadHalfRefused(c, tc, a), rep.otherSize.value)
  {
    AttemptQuotes(c, tc, a.t, AttemptOf(a));
    if rep.Report? && rep.otherSize.Some? {
      SizeQuoted(c, a, record, ReadHalfRefused(c, tc, a), rep.otherSize.value);
    }
  }

  predicate PositiveSizes(tr: Trace) {
    forall i :: 0 <= i < |tr| && IsAtomic(tr[i]) ==> tr[i].size > 0
  }

  lemma SaneCell(tr: Trace, from: int, a: Action, cell: Cell)
    requires IsAccess(a) && SizeSeen(tr, from, a.loc, cell) && from >= -1 && PositiveSizes(tr + [a])
    ensures SaneSize(cell) && SizeOfAttempt(AttemptOf(a)) > 0
  {
    assert (tr + [a])[|tr|] == a;
    assert forall i :: 0 <= i < |tr| ==> (tr + [a])[i] == tr[i];
  }

  /** What the report on a rejected access rests on. */
  lemma RefusedCell(tr: Trace, st: seq<nat>, start: nat, s: D.State, a: Action)
    requires CellsInv(tr, st, start, s) && Tidy(s.g) && D.Enabled(s, a) && a.t < |s.g.clocks|
    requires IsAccess(a) && PositiveSizes(tr + [a]) && !Accepts(s, a)
    ensures SaneSize(s.cells[a.loc]) && SizeOfAttempt(AttemptOf(a)) > 0
    ensures !CellAccess(s.cells[a.loc], s.g.clocks[a.t], a).ok
  {
    SaneCell(tr, From(tr, start, a.loc), a, s.cells[a.loc]);
    AcceptsIsCellAccess(s, a);
  }

  lemma {:induction false} Rejected(tr: Trace, a: Action)
    requires Situation(tr, a) && IsAccess(a) && PositiveSizes(tr + [a]) && !Accepts(Run(tr), a)
    ensures a.loc in Run(tr).cells && a.t < |Run(tr).g.clocks|
    ensures SaneSize(Run(tr).cells[a.loc]) && SizeOfAttempt(AttemptOf(a)) > 0
    ensures !CellAccess(Run(tr).cells[a.loc], Run(tr).g.clocks[a.t], a).ok
  {
    Standing(tr, a);
    RefusedCell(tr, Stamps(tr), FirstCreate(tr), Run(tr), a);
  }

  /** What the sets say of position `i`, in terms of the declared order. */
  lemma {:induction false} UnseenIsUnordered(tr: Trace, a: Action, j: Judged, i: nat)
    requires E.WellFormed(tr) && E.Enabled(E.Run(tr), a) && IsAccess(a) && i < |tr| && i !in j.before
    requires a.t < |E.Run(tr).threads| && a.loc in E.Run(tr).sync
    requires j.before == E.Run(tr).threads[a.t].past && j.after == SeenAfter(E.Run(tr), a)
    ensures !InPast(tr, a.t, i) && (OrderedAtCheck(tr, a, i) <==> SeenAtCheck(tr[i], a, j.before, j.after, i))
  {
    PastIsSet(tr, a.t, i);
    OrderedIsSeen(tr, a, i);
  }

  /** In every run: when the detector reports the next access, the report names an earlier access by
      its thread and type, and quotes its size if that is why. That access races with the reported one, or clashes with it in size, and
      was not ordered before it; even the own acquire of a read-modify-write would not have ordered
      it, unless its read half was refused. Only where a store hid behind mixed-size loads does
      building the message fail. */
  lemma ReportsNameARace(tr: Trace, a: Action) returns (i: nat)
    requires Situation(tr, a) && IsAccess(a) && PositiveSizes(tr + [a]) && !Accepts(Run(tr), a)
    ensures a.loc in Run(tr).cells && a.t < |Run(tr).g.clocks|
    ensures var c, tc := Run(tr).cells[a.loc], Run(tr).g.clocks[a.t];
      var rep := ReportOn(c, tc, a);
      if StoreBehindMixedLoads(c, TypeOf(AttemptOf(a)), tc.clock) then rep == DescriptionPanic
      else
        && rep.Report? && Reported(a, rep.own) && i < |tr| && tr[i].t == rep.index && Named(tr[i], rep.other)
        && NamedRightly(tr[i], a, rep) && !InPast(tr, a.t, i)
        && (ReadHalfRefused(c, tc, a) || !OrderedAtCheck(tr, a, i))
        && (rep.otherSize.Some? ==> IsAtomic(a) && Quotes(RecordedSize(tr, a.loc), a, ReadHalfRefused(c, tc, a), rep.otherSize.value))
  {
    Rejected(tr, a);
    var j := JudgedRun(tr, a);
    var rep := ReportOn(j.cell, j.tc, a);
    Blamed(j, a, rep);
    i := 0;
    if rep.Report? {
      i := JudgedReport(tr, a, j, rep);
      E.RunExtend(tr, a);
      UnseenIsUnordered(tr, a, j, i);
      ReportsOwn(j.cell, j.tc, a, rep);
      RunRecords(tr);
      QuotesRecord(j.cell, j.tc, a, RecordedSize(tr, a.loc), rep);
    }
  }

  lemma {:induction false} JudgedRun(tr: Trace, a: Action) returns (j: Judged)
    requires Situation(tr, a) && IsAccess(a)
    ensures a.loc in Run(tr).cells && a.t < |Run(tr).g.clocks| && a.t < |E.Run(tr).threads| && a.loc in E.Run(tr).sync
    ensures j == JudgedOn(tr, a) && Judgeable(tr, a, j)
  {
    E.RunExtend(tr, a);
    PassedIsRaceFree(tr);
    JudgedFacts(tr, a);
    j := JudgedOn(tr, a);
  }
}
