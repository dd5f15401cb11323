/** What a shadow cell remembers of its location's history: the last non-atomic write, and since
    then the latest timestamp of each thread's non-atomic reads, atomic reads and atomic writes. */
module CellHistory {
  import opened Wrappers
  import opened VectorClocks
  import opened Actions
  import opened ShadowCells
  import opened ClockRefinement

  predicate NaWritesTo(a: Action, loc: nat) { IsNaWrite(a) && a.loc == loc }

  /** The position of the last non-atomic write to `loc`, or -1. */
  function LastNaWrite(tr: Trace, loc: nat): (w: int)
    ensures -1 <= w < |tr|
    ensures w >= 0 ==> NaWritesTo(tr[w], loc)
    ensures forall i :: w < i < |tr| ==> !NaWritesTo(tr[i], loc)
  {
    if tr == [] then -1
    else if NaWritesTo(tr[|tr| - 1], loc) then |tr| - 1
    else LastNaWrite(tr[..|tr| - 1], loc)
  }

  datatype Kind = NaReads | AtomicReads | AtomicWrites

  predicate OfKind(a: Action, kind: Kind, loc: nat) {
    match kind
    case NaReads => a.NaRead? && a.loc == loc
    case AtomicReads => Reads(a) && a.loc == loc
    case AtomicWrites => Modifies(a) && a.loc == loc
  }

  predicate Latest(tr: Trace, st: seq<nat>, from: int, loc: nat, kind: Kind, v: VClock, u: nat, i: nat)
    requires |st| == |tr|
  {
    from < i < |tr| && OfKind(tr[i], kind, loc) && tr[i].t == u && st[i] == At(v, u)
  }

  /** `v` holds, for each thread, the timestamp of its latest access of this kind after `from`. */
  ghost predicate Summarises(tr: Trace, st: seq<nat>, from: int, loc: nat, kind: Kind, v: VClock)
    requires |st| == |tr|
  {
    && (forall i :: 0 <= i < |tr| && from < i && OfKind(tr[i], kind, loc) ==> st[i] <= At(v, tr[i].t))
    && (forall u: nat :: At(v, u) == 0 || exists i: nat :: Latest(tr, st, from, loc, kind, v, u, i))
  }

  ghost predicate EarlyWrite(tr: Trace, st: seq<nat>, start: nat, cell: Cell, i: nat)
    requires |st| == |tr|
  {
    i <= start && i < |tr| && cell.writeIndex == tr[i].t && cell.writeStamp == st[i]
  }

  /** The type of a non-atomic write. */
  predicate WrittenAs(a: Action, wt: NaWriteType) {
    (a.NaWrite? && a.wt == wt) || (a.Allocate? && a.tracked && wt == AllocateWrite)
  }

  /** The write epoch: the last non-atomic write, with its type, if it came after the first thread
      creation, else the allocation at a timestamp that every thread has seen. */
  ghost predicate WriteEpoch(tr: Trace, st: seq<nat>, start: nat, w: int, cell: Cell)
    requires |st| == |tr| && w < |tr|
  {
    if w > start then cell.writeIndex == tr[w].t && cell.writeStamp == st[w] && WrittenAs(tr[w], cell.writeType)
    else
      && cell.writeType == AllocateWrite
      && ((cell.writeIndex == 0 && cell.writeStamp == 0) || exists i: nat :: EarlyWrite(tr, st, start, cell, i))
  }

  predicate SizedAt(tr: Trace, from: int, loc: nat, size: nat, i: nat) {
    from < i < |tr| && IsAtomic(tr[i]) && tr[i].loc == loc && tr[i].size == size
  }

  /** The recorded size was used after `from`; if none is recorded, two sizes were. */
  ghost predicate SizeSeen(tr: Trace, from: int, loc: nat, cell: Cell) {
    cell.atomicOps.Some? ==>
      match cell.atomicOps.value.size
      case Some(z) => exists i: nat :: SizedAt(tr, from, loc, z, i)
      case None => exists y: nat, z: nat, i: nat, j: nat ::
        SizedAt(tr, from, loc, y, i) && SizedAt(tr, from, loc, z, j) && y != z
  }

  function From(tr: Trace, start: nat, loc: nat): int {
    var w := LastNaWrite(tr, loc);
    if w > start then w else start
  }

  /** The shadow cell of `loc` after the trace. */
  ghost predicate CellInv(tr: Trace, st: seq<nat>, start: nat, loc: nat, cell: Cell) {
    && |st| == |tr|
    && WriteEpoch(tr, st, start, LastNaWrite(tr, loc), cell)
    && Summarises(tr, st, From(tr, start, loc), loc, NaReads, cell.read)
    && Summarises(tr, st, From(tr, start, loc), loc, AtomicReads, ReadVector(cell))
    && Summarises(tr, st, From(tr, start, loc), loc, AtomicWrites, WriteVector(cell))
    && SizeSeen(tr, From(tr, start, loc), loc, cell)
  }

  lemma {:induction false} LastNaWriteStep(tr: Trace, a: Action, loc: nat)
    ensures LastNaWrite(tr + [a], loc) == if NaWritesTo(a, loc) then |tr| else LastNaWrite(tr, loc)
  {
    assert (tr + [a])[..|tr|] == tr;
  }

  // One summary, one step.

  lemma SummaryKept(tr: Trace, st: seq<nat>, from: int, loc: nat, kind: Kind, v: VClock, a: Action, now: nat)
    requires |st| == |tr| && Summarises(tr, st, from, loc, kind, v) && !OfKind(a, kind, loc)
    ensures Summarises(tr + [a], st + [now], from, loc, kind, v)
  {
    forall u: nat | At(v, u) != 0 ensures exists i: nat :: Latest(tr + [a], st + [now], from, loc, kind, v, u, i) {
      var i: nat :| Latest(tr, st, from, loc, kind, v, u, i);
      assert Latest(tr + [a], st + [now], from, loc, kind, v, u, i);
    }
  }

  lemma SummaryExtended(tr: Trace, st: seq<nat>, from: int, loc: nat, kind: Kind, v: VClock, k: VClock, a: Action, now: nat)
    requires |st| == |tr| && from < |tr| && Summarises(tr, st, from, loc, kind, v) && OfKind(a, kind, loc)
    requires At(k, a.t) == now && forall i :: 0 <= i < |tr| && tr[i].t == a.t ==> st[i] <= now
    ensures MaySetAtIndex(v, k, a.t)
    ensures Summarises(tr + [a], st + [now], from, loc, kind, SetAtIndex(v, k, a.t))
  {
    var v' := SetAtIndex(v, k, a.t);
    if At(v, a.t) != 0 {
      var i: nat :| Latest(tr, st, from, loc, kind, v, a.t, i);
    }
    forall u: nat | At(v', u) != 0 ensures exists i: nat :: Latest(tr + [a], st + [now], from, loc, kind, v', u, i) {
      if u == a.t {
        assert Latest(tr + [a], st + [now], from, loc, kind, v', u, |tr|);
      } else {
        var i: nat :| Latest(tr, st, from, loc, kind, v, u, i);
        assert Latest(tr + [a], st + [now], from, loc, kind, v', u, i);
      }
    }
  }

  /** The vector `v'` of one kind after access `a`, which extends the vectors of its own kinds only. */
  predicate Extends(a: Action, kind: Kind, loc: nat, v: VClock, k: VClock, v': VClock) {
    v' == if OfKind(a, kind, loc) then SetAtIndex(v, k, a.t) else v
  }

  lemma SummaryUpdated(
      tr: Trace, st: seq<nat>, from: int, loc: nat, kind: Kind, v: VClock, k: VClock, a: Action, now: nat, v': VClock)
    requires |st| == |tr| && from < |tr| && Summarises(tr, st, from, loc, kind, v) && Extends(a, kind, loc, v, k, v')
    requires At(k, a.t) == now && forall i :: 0 <= i < |tr| && tr[i].t == a.t ==> st[i] <= now
    ensures OfKind(a, kind, loc) ==> MaySetAtIndex(v, k, a.t)
    ensures Summarises(tr + [a], st + [now], from, loc, kind, v')
  {
    if OfKind(a, kind, loc) {
      SummaryExtended(tr, st, from, loc, kind, v, k, a, now);
    } else {
      SummaryKept(tr, st, from, loc, kind, v, a, now);
    }
  }

  lemma SummaryEmpty(tr: Trace, st: seq<nat>, from: int, loc: nat, kind: Kind)
    requires |st| == |tr| && from >= |tr| - 1
    ensures Summarises(tr, st, from, loc, kind, [])
  {
  }

  lemma SummaryVacuous(tr: Trace, st: seq<nat>, from: int, loc: nat, kind: Kind, v: VClock)
    requires |st| == |tr| && from >= |tr| - 1 && Summarises(tr, st, from, loc, kind, v)
    ensures v == []
  {
    assert forall u: nat :: At(v, u) == 0;
    Extensional(v, []);
  }

  /** Comparing a summary with a clock asks about every access it summarises. */
  lemma SummaryDecides(tr: Trace, st: seq<nat>, start: nat, from: int, loc: nat, kind: Kind, v: VClock, k: VClock, m: set<nat>)
    requires |st| == |tr| && from >= start && Summarises(tr, st, from, loc, kind, v)
    requires forall i :: start < i < |tr| ==> (i in m <==> st[i] <= At(k, tr[i].t))
    ensures Leq(v, k) <==> forall i :: from < i < |tr| && OfKind(tr[i], kind, loc) ==> i in m
  {
    LeqPointwise(v, k);
    if forall i :: from < i < |tr| && OfKind(tr[i], kind, loc) ==> i in m {
      forall u: nat ensures At(v, u) <= At(k, u) {
        if At(v, u) != 0 {
          var i: nat :| Latest(tr, st, from, loc, kind, v, u, i);
        }
      }
    }
  }

  /** The epoch comparison asks about the last non-atomic write. */
  lemma EpochDecides(tr: Trace, st: seq<nat>, start: nat, w: int, cell: Cell, k: VClock, m: set<nat>)
    requires |st| == |tr| && w < |tr| && WriteEpoch(tr, st, start, w, cell)
    requires forall i :: start < i < |tr| ==> (i in m <==> st[i] <= At(k, tr[i].t))
    requires forall i :: 0 <= i <= start && i < |tr| ==> st[i] <= At(k, tr[i].t)
    ensures WriteWasBefore(cell, k) <==> w <= start || w in m
  {
    if w <= start && !(cell.writeIndex == 0 && cell.writeStamp == 0) {
      var i: nat :| EarlyWrite(tr, st, start, cell, i);
    }
  }

  // One cell, one step.

  lemma EpochKept(tr: Trace, st: seq<nat>, start: nat, w: int, cell: Cell, a: Action, now: nat, cell': Cell)
    requires |st| == |tr| && start <= |tr| && w < |tr| && WriteEpoch(tr, st, start, w, cell)
    requires cell'.writeIndex == cell.writeIndex && cell'.writeStamp == cell.writeStamp && cell'.writeType == cell.writeType
    ensures WriteEpoch(tr + [a], st + [now], NextStart(start, |tr|, a), w, cell')
  {
    if w <= start && !(cell.writeIndex == 0 && cell.writeStamp == 0) {
      var i: nat :| EarlyWrite(tr, st, start, cell, i);
      assert EarlyWrite(tr + [a], st + [now], NextStart(start, |tr|, a), cell', i);
    }
  }

  lemma SizeKept(tr: Trace, from: int, loc: nat, cell: Cell, a: Action)
    requires SizeSeen(tr, from, loc, cell)
    ensures SizeSeen(tr + [a], from, loc, cell)
  {
    forall z: nat, i: nat | SizedAt(tr, from, loc, z, i) ensures SizedAt(tr + [a], from, loc, z, i) {
    }
    if cell.atomicOps.Some? {
      match cell.atomicOps.value.size
      case Some(z) =>
        var i: nat :| SizedAt(tr, from, loc, z, i);
        assert SizedAt(tr + [a], from, loc, z, i);
      case None =>
        var y: nat, z: nat, i: nat, j: nat :| SizedAt(tr, from, loc, y, i) && SizedAt(tr, from, loc, z, j) && y != z;
        assert SizedAt(tr + [a], from, loc, y, i) && SizedAt(tr + [a], from, loc, z, j);
    }
  }

  /** An atomic access records its size, or that it did not agree with the size recorded. */
  lemma SizeRecorded(tr: Trace, from: int, loc: nat, cell: Cell, a: Action, cell': Cell)
    requires SizeSeen(tr, from, loc, cell) && from < |tr| && IsAtomic(a) && a.loc == loc
    requires cell'.atomicOps.Some?
    requires cell'.atomicOps.value.size == Some(a.size) || (cell'.atomicOps.value.size == None && !SizeIs(cell, a.size))
    ensures SizeSeen(tr + [a], from, loc, cell')
  {
    assert SizedAt(tr + [a], from, loc, a.size, |tr|);
    if cell'.atomicOps.value.size == None {
      SizeKept(tr, from, loc, cell, a);
    }
  }

  /** With one access size since the last non-atomic write the size test never interferes. */
  lemma SizeMatches(tr: Trace, from: int, loc: nat, cell: Cell, size: nat)
    requires SizeSeen(tr, from, loc, cell)
    requires forall i :: 0 <= i < |tr| && from < i && IsAtomic(tr[i]) && tr[i].loc == loc ==> tr[i].size == size
    ensures SizeIs(cell, size)
  {
  }

  /** Steps that touch other locations, or none, leave a cell's invariant alone. */
  lemma CellElsewhere(tr: Trace, st: seq<nat>, start: nat, loc: nat, cell: Cell, a: Action, now: nat)
    requires CellInv(tr, st, start, loc, cell) && start < |tr| && !TouchesLoc(a, loc)
    ensures CellInv(tr + [a], st + [now], start, loc, cell)
  {
    LastNaWriteStep(tr, a, loc);
    var from := From(tr, start, loc);
    SummaryKept(tr, st, from, loc, NaReads, cell.read, a, now);
    SummaryKept(tr, st, from, loc, AtomicReads, ReadVector(cell), a, now);
    SummaryKept(tr, st, from, loc, AtomicWrites, WriteVector(cell), a, now);
    EpochKept(tr, st, start, LastNaWrite(tr, loc), cell, a, now, cell);
    SizeKept(tr, from, loc, cell, a);
  }

  /** Before the second thread exists nothing is recorded, and nothing needs to be. */
  lemma CellEarly(tr: Trace, st: seq<nat>, start: nat, loc: nat, cell: Cell, a: Action, now: nat)
    requires CellInv(tr, st, start, loc, cell) && start == |tr|
    ensures CellInv(tr + [a], st + [now], NextStart(start, |tr|, a), loc, cell)
  {
    LastNaWriteStep(tr, a, loc);
    var all, st', start' := tr + [a], st + [now], NextStart(start, |tr|, a);
    SummaryVacuous(tr, st, start, loc, NaReads, cell.read);
    SummaryVacuous(tr, st, start, loc, AtomicReads, ReadVector(cell));
    SummaryVacuous(tr, st, start, loc, AtomicWrites, WriteVector(cell));
    assert From(tr, start, loc) == start && From(all, start', loc) == start';
    SummaryEmpty(all, st', start', loc, NaReads);
    SummaryEmpty(all, st', start', loc, AtomicReads);
    SummaryEmpty(all, st', start', loc, AtomicWrites);
    EpochKept(tr, st, start, LastNaWrite(tr, loc), cell, a, now, cell);
    assert WriteEpoch(all, st', start', LastNaWrite(all, loc), cell);
  }

  /** Nothing has touched `loc` yet. */
  predicate Untouched(tr: Trace, loc: nat) {
    forall i :: 0 <= i < |tr| ==> !TouchesLoc(tr[i], loc)
  }

  lemma CellAllocated(tr: Trace, st: seq<nat>, start: nat, a: Action, now: nat)
    requires |st| == |tr| && start <= |tr| && a.Allocate? && Untouched(tr, a.loc)
    ensures CellInv(tr + [a], st + [now], NextStart(start, |tr|, a), a.loc,
      if a.tracked then NewCell(now, a.t) else NewCell(0, 0))
  {
    var all, st', start', loc := tr + [a], st + [now], NextStart(start, |tr|, a), a.loc;
    var cell := if a.tracked then NewCell(now, a.t) else NewCell(0, 0);
    LastNaWriteStep(tr, a, loc);
    assert LastNaWrite(tr, loc) == -1;
    var from := From(all, start', loc);
    assert forall kind :: !OfKind(a, kind, loc);
    assert forall i, kind :: 0 <= i < |tr| ==> !OfKind(tr[i], kind, loc);
    assert Summarises(all, st', from, loc, NaReads, []);
    assert Summarises(all, st', from, loc, AtomicReads, []);
    assert Summarises(all, st', from, loc, AtomicWrites, []);
    if a.tracked && |tr| <= start' {
      assert EarlyWrite(all, st', start', cell, |tr|);
    }
  }

  lemma CellReadNonAtomically(tr: Trace, st: seq<nat>, start: nat, cell: Cell, a: Action, now: nat, k: VClock)
    requires a.NaRead? && CellInv(tr, st, start, a.loc, cell) && start < |tr|
    requires At(k, a.t) == now && forall i :: 0 <= i < |tr| && tr[i].t == a.t ==> st[i] <= now
    requires NonAtomicRead(cell, k, a.t).ok
    ensures MaySetAtIndex(cell.read, k, a.t)
    ensures CellInv(tr + [a], st + [now], start, a.loc, NonAtomicRead(cell, k, a.t).cell)
  {
    var loc := a.loc;
    LastNaWriteStep(tr, a, loc);
    var from := From(tr, start, loc);
    SummaryExtended(tr, st, from, loc, NaReads, cell.read, k, a, now);
    SummaryKept(tr, st, from, loc, AtomicReads, ReadVector(cell), a, now);
    SummaryKept(tr, st, from, loc, AtomicWrites, WriteVector(cell), a, now);
    EpochKept(tr, st, start, LastNaWrite(tr, loc), cell, a, now, NonAtomicRead(cell, k, a.t).cell);
    SizeKept(tr, from, loc, cell, a);
  }

  lemma CellWrittenNonAtomically(tr: Trace, st: seq<nat>, start: nat, cell: Cell, a: Action, now: nat, k: VClock)
    requires a.NaWrite? && CellInv(tr, st, start, a.loc, cell) && start < |tr|
    requires At(k, a.t) == now
    requires NonAtomicWrite(cell, k, a.t, a.wt).ok
    ensures CellInv(tr + [a], st + [now], start, a.loc, NonAtomicWrite(cell, k, a.t, a.wt).cell)
  {
    LastNaWriteStep(tr, a, a.loc);
    SummaryEmpty(tr + [a], st + [now], |tr|, a.loc, NaReads);
    SummaryEmpty(tr + [a], st + [now], |tr|, a.loc, AtomicReads);
    SummaryEmpty(tr + [a], st + [now], |tr|, a.loc, AtomicWrites);
  }

  /** A cell whose vectors were extended by one atomic access. */
  lemma CellAccessedAtomically(tr: Trace, st: seq<nat>, start: nat, cell: Cell, a: Action, now: nat, k: VClock, k': VClock, cell': Cell)
    requires IsAtomic(a) && CellInv(tr, st, start, a.loc, cell) && start < |tr|
    requires At(k, a.t) == now == At(k', a.t) && forall i :: 0 <= i < |tr| && tr[i].t == a.t ==> st[i] <= now
    requires cell'.(atomicOps := None) == cell.(atomicOps := None)
    requires Extends(a, AtomicReads, a.loc, ReadVector(cell), k, ReadVector(cell'))
    requires Extends(a, AtomicWrites, a.loc, WriteVector(cell), k', WriteVector(cell'))
    requires cell'.atomicOps.Some?
    requires cell'.atomicOps.value.size == Some(a.size) || (cell'.atomicOps.value.size == None && !SizeIs(cell, a.size))
    ensures Reads(a) ==> MaySetAtIndex(ReadVector(cell), k, a.t)
    ensures Modifies(a) ==> MaySetAtIndex(WriteVector(cell), k', a.t)
    ensures CellInv(tr + [a], st + [now], start, a.loc, cell')
  {
    var loc := a.loc;
    LastNaWriteStep(tr, a, loc);
    var from, all, st' := From(tr, start, loc), tr + [a], st + [now];
    assert Summarises(all, st', from, loc, NaReads, cell'.read) by {
      SummaryKept(tr, st, from, loc, NaReads, cell.read, a, now);
    }
    SummaryUpdated(tr, st, from, loc, AtomicReads, ReadVector(cell), k, a, now, ReadVector(cell'));
    SummaryUpdated(tr, st, from, loc, AtomicWrites, WriteVector(cell), k', a, now, WriteVector(cell'));
    assert WriteEpoch(all, st', start, LastNaWrite(tr, loc), cell') by {
      EpochKept(tr, st, start, LastNaWrite(tr, loc), cell, a, now, cell');
    }
    assert SizeSeen(all, from, loc, cell') by {
      SizeRecorded(tr, from, loc, cell, a, cell');
    }
  }
}
