/** What a location's synchronization clock stands for: the clock published by the last plain store
    and by every read-modify-write since. Plain stores cut release sequences, read-modify-writes
    carry them on, and non-atomic writes drop them. */
module ReleaseSequences {
  import opened VectorClocks
  import opened ShadowCells
  import opened RaceReports

  /** An access with the clocks and index of the thread that makes it. */
  datatype CellOp = CellOp(attempt: Attempt, tc: ThreadClocks, index: nat)

  function Outcome(c: Cell, op: CellOp): OpResult {
    Perform(c, op.tc, op.index, op.attempt)
  }

  /** The cell after a series of accesses. */
  function CellAfter(c: Cell, ops: seq<CellOp>): Cell {
    if ops == [] then c else Outcome(CellAfter(c, ops[..|ops| - 1]), ops[|ops| - 1]).cell
  }

  /** No access of the series fails. */
  predicate AllPass(c: Cell, ops: seq<CellOp>) {
    ops == [] || (AllPass(c, ops[..|ops| - 1]) && Outcome(CellAfter(c, ops[..|ops| - 1]), ops[|ops| - 1]).ok)
  }

  /** Whether an access ends every earlier release sequence. */
  predicate Cuts(a: Attempt) {
    a.TryStore? || a.TryWrite?
  }

  /** The last access that cuts, or -1. */
  function LastCut(ops: seq<CellOp>): (w: int)
    ensures -1 <= w < |ops|
    ensures w >= 0 ==> Cuts(ops[w].attempt)
    ensures forall i :: w < i < |ops| ==> !Cuts(ops[i].attempt)
  {
    if ops == [] then -1
    else
      var n := |ops| - 1;
      if Cuts(ops[n].attempt) then n else LastCut(ops[..n])
  }

  /** Whether the access at `i` belongs to the release sequence at the end: it is the store that
      heads it, or a read-modify-write after the last cut. */
  predicate Contributes(ops: seq<CellOp>, i: nat) {
    i < |ops| && i >= LastCut(ops) && (ops[i].attempt.TryStore? || ops[i].attempt.TryRmw?)
  }

  /** The clock that an access publishes: its thread's, or that of its last release fence if it is
      relaxed. A read-modify-write publishes after acquiring what was there. */
  function Publication(before: Cell, op: CellOp): VClock {
    match op.attempt
    case TryStore(size, release) => PublishedClock(op.tc, release)
    case TryRmw(size, acquire, release) => PublishedClock(AcquiredClocks(op.tc, SyncVector(before), acquire), release)
    case _ => []
  }

  /** What the access at `i` of a history published. */
  function PublishedAt(c: Cell, ops: seq<CellOp>, i: nat): VClock
    requires i < |ops|
  {
    Publication(CellAfter(c, ops[..i]), ops[i])
  }

  /** All publications of the release sequence at the end are below `u`. */
  ghost predicate SequenceBelow(c: Cell, ops: seq<CellOp>, u: VClock) {
    forall i :: 0 <= i < |ops| && Contributes(ops, i) ==> Leq(PublishedAt(c, ops, i), u)
  }

  /** One passing access changes the synchronization clock as its kind says. */
  lemma SyncStep(mid: Cell, op: CellOp)
    requires Outcome(mid, op).ok
    ensures SyncVector(Outcome(mid, op).cell) ==
      match op.attempt
      case TryStore(_, _) => Publication(mid, op)
      case TryRmw(_, _, _) => Join(SyncVector(mid), Publication(mid, op))
      case TryWrite(_) => []
      case _ => SyncVector(mid)
  {
    match op.attempt
    case TryLoad(size, acquire) => SyncEffects(mid, op.tc, op.index, size, acquire, false);
    case TryStore(size, release) => SyncEffects(mid, op.tc, op.index, size, false, release);
    case TryRmw(size, acquire, release) => SyncEffects(mid, op.tc, op.index, size, acquire, release);
    case _ =>
  }

  /** How one more access changes the release sequence. */
  lemma SequenceStep(c: Cell, ops: seq<CellOp>, u: VClock)
    requires ops != []
    ensures var n := |ops| - 1;
      SequenceBelow(c, ops, u) <==>
      match ops[n].attempt
      case TryStore(_, _) => Leq(PublishedAt(c, ops, n), u)
      case TryRmw(_, _, _) => SequenceBelow(c, ops[..n], u) && Leq(PublishedAt(c, ops, n), u)
      case TryWrite(_) => true
      case _ => SequenceBelow(c, ops[..n], u)
  {
    var n := |ops| - 1;
    if Cuts(ops[n].attempt) {
      assert LastCut(ops) == n;
    } else {
      forall i | 0 <= i < n
        ensures (Contributes(ops, i) <==> Contributes(ops[..n], i)) && PublishedAt(c, ops[..n], i) == PublishedAt(c, ops, i)
      {
        SameContribution(c, ops, i);
      }
    }
    if ops[n].attempt.TryStore? || ops[n].attempt.TryRmw? {
      assert Contributes(ops, n);
    }
  }

  lemma SameContribution(c: Cell, ops: seq<CellOp>, i: nat)
    requires i < |ops| - 1 && !Cuts(ops[|ops| - 1].attempt)
    ensures var before := ops[..|ops| - 1];
      (Contributes(ops, i) <==> Contributes(before, i)) && PublishedAt(c, before, i) == PublishedAt(c, ops, i)
  {
    var n := |ops| - 1;
    assert LastCut(ops) == LastCut(ops[..n]);
    assert ops[..n][..i] == ops[..i];
  }

  /** The synchronization clock is the least upper bound of the clocks published along the release
      sequence: by the store that heads it and by every read-modify-write since. */
  lemma {:induction false} SyncIsReleaseSequence(c: Cell, ops: seq<CellOp>, u: VClock)
    requires SyncVector(c) == [] && AllPass(c, ops)
    ensures Leq(SyncVector(CellAfter(c, ops)), u) <==> SequenceBelow(c, ops, u)
    decreases |ops|
  {
    if ops != [] {
      var n := |ops| - 1;
      var mid := CellAfter(c, ops[..n]);
      SyncIsReleaseSequence(c, ops[..n], u);
      SyncStep(mid, ops[n]);
      SequenceStep(c, ops, u);
      JoinIsLeastUpperBound(SyncVector(mid), PublishedAt(c, ops, n), u);
    }
  }

  /** Sizes of zero never appear, so the report cascade always applies. */
  lemma {:induction false} SizesStaySane(c: Cell, ops: seq<CellOp>)
    requires SaneSize(c) && forall i :: 0 <= i < |ops| ==> SizeOfAttempt(ops[i].attempt) > 0
    ensures SaneSize(CellAfter(c, ops))
    decreases |ops|
  {
    if ops != [] {
      var n := |ops| - 1;
      SizesStaySane(c, ops[..n]);
      SaneStep(CellAfter(c, ops[..n]), ops[n]);
    }
  }

  lemma DetectsSane(c: Cell, clock: VClock, index: nat, size: nat)
    requires SaneSize(c) && size > 0
    ensures SaneSize(AtomicReadDetect(c, clock, index, size).cell)
    ensures SaneSize(AtomicWriteDetect(c, clock, index, size).cell)
  {
    assert SaneSize(AtomicAccess(c, clock, size, false).cell) && SaneSize(AtomicAccess(c, clock, size, true).cell);
  }

  lemma SaneStep(c: Cell, op: CellOp)
    requires SaneSize(c) && SizeOfAttempt(op.attempt) > 0
    ensures SaneSize(Outcome(c, op).cell)
  {
    if op.attempt.TryLoad? || op.attempt.TryStore? || op.attempt.TryRmw? {
      DetectsSane(c, op.tc.clock, op.index, op.attempt.size);
    }
    if op.attempt.TryRmw? {
      RmwSane(c, op.tc, op.index, op.attempt.size, op.attempt.acquire, op.attempt.release);
    }
  }

  lemma RmwSane(c: Cell, tc: ThreadClocks, index: nat, size: nat, acquire: bool, release: bool)
    requires SaneSize(c) && size > 0
    ensures SaneSize(AtomicRmw(c, tc, index, size, acquire, release).cell)
  {
    DetectsSane(c, tc.clock, index, size);
    var r := AtomicLoad(c, tc, index, size, acquire);
    assert SaneSize(r.cell);
    if r.ok {
      DetectsSane(r.cell, r.clocks.clock, index, size);
    }
  }
}
