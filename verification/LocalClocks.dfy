/** Locals without an address: their clocks are kept beside the stack frame and turned into a shadow
    cell only when the local moves to memory. No later step of any thread can tell the difference from
    having tracked the local in memory all along. */
module LocalClocks {
  import opened Wrappers
  import opened VectorClocks
  import opened Actions
  import opened ShadowCells
  import opened RangeMaps
  import opened BlockDetection
  import D = Detector

  datatype Clocks = Clocks(write: nat, writeType: NaWriteType, read: nat)

  /** Used when detection was off at the write: the beginning of time. */
  const BACKDATED := Clocks(0, AllocateWrite, 0)

  function EntryOr(m: map<nat, Clocks>, local: nat): (c: Clocks)
    ensures local in m ==> c == m[local]
    ensures local !in m ==> c == Clocks(0, AllocateWrite, 0)
  {
    if local in m then m[local] else BACKDATED
  }

  function Written(c: Clocks, storageLive: bool, stamp: nat): Clocks {
    if storageLive then Clocks(stamp, AllocateWrite, 0) else c.(write := stamp, writeType := PlainWrite)
  }

  /** The cell that a local's clocks become in memory. */
  function MovedCell(was: Cell, c: Clocks, index: nat): Cell {
    was.(writeIndex := index, writeStamp := c.write, writeType := c.writeType, read := Singleton(index, c.read))
  }

  function AllMoved(cells: seq<Cell>, c: Clocks, index: nat): (r: seq<Cell>)
    ensures |r| == |cells| && forall o :: 0 <= o < |r| ==> r[o] == MovedCell(cells[o], c, index)
  {
    seq(|cells|, o requires 0 <= o < |cells| => MovedCell(cells[o], c, index))
  }

  class FrameState {
    var localClocks: map<nat, Clocks>

    constructor ()
      ensures localClocks == map[]
    {
      localClocks := map[];
    }

    method LocalWrite(detecting: bool, local: nat, storageLive: bool, clock: VClock, index: nat)
      modifies this
      ensures !detecting ==> localClocks == old(localClocks)
      ensures detecting ==> (
        localClocks == old(localClocks)[
          local := Written(EntryOr(old(localClocks), local), storageLive, At(clock, index))])
    {
      if !detecting {
        return;
      }
      if storageLive {
        localClocks := localClocks[local := Clocks(At(clock, index), AllocateWrite, 0)];
      } else {
        var clocks := EntryOr(localClocks, local);
        localClocks := localClocks[local := clocks.(write := At(clock, index), writeType := PlainWrite)];
      }
    }

    method LocalRead(detecting: bool, local: nat, clock: VClock, index: nat)
      modifies this
      ensures !detecting ==> localClocks == old(localClocks)
      ensures detecting ==> (
        localClocks == old(localClocks)[local := EntryOr(old(localClocks), local).(read := At(clock, index))])
    {
      if !detecting {
        return;
      }
      var clocks := EntryOr(localClocks, local);
      localClocks := localClocks[local := clocks.(read := At(clock, index))];
    }

    /** Gives the whole fresh allocation of a local the local's clocks. */
    method LocalMovedToMemory(detecting: bool, local: nat, alloc: VClockAlloc, index: nat)
      requires alloc.allocRanges.Valid()
      requires forall c :: c in alloc.allocRanges.Contents() ==> c.writeIndex == index
      modifies this, alloc.allocRanges
      ensures alloc.allocRanges.Valid()
      ensures !detecting ==> localClocks == old(localClocks) && alloc.allocRanges.v == old(alloc.allocRanges.v)
      ensures detecting ==> localClocks == old(localClocks) - {local}
      ensures var was, now := old(alloc.allocRanges.Contents()), alloc.allocRanges.Contents();
        detecting ==> now == AllMoved(was, EntryOr(old(localClocks), local), index)
    {
      if !detecting {
        return;
      }
      var clocks := EntryOr(localClocks, local);
      localClocks := localClocks - {local};
      ghost var was := alloc.allocRanges.v;
      ghost var check: Check := c => CellResult(MovedCell(c, clocks, index), true);
      var m := alloc.allocRanges;
      var i, n := 0, |m.v|;
      ghost var pos := 0;
      ChainEnd(m.v, 0, End(m.v, 0));
      if n > 0 {
        ChainElem(m.v, 0, End(m.v, 0), 0);
        ChainElem(m.v, 0, End(m.v, 0), n - 1);
      }
      HalfwayStart(m.v, 0, n, 0, End(m.v, 0), check);
      while i < n
        invariant 0 <= i <= n && m == alloc.allocRanges && localClocks == old(localClocks) - {local}
        invariant Halfway(m.v, Flat(was), i, n, 0, End(was, 0), pos, check)
        modifies m
      {
        BlockStep(m.v, Flat(was), i, n, 0, End(was, 0), pos, check);
        var elem := m.v[i];
        var cell := elem.data.(writeIndex := index, writeStamp := clocks.write,
          writeType := clocks.writeType, read := Singleton(index, clocks.read));
        m.v := m.v[i := elem.(data := cell)];
        pos := elem.end;
        i := i + 1;
      }
      HalfwayDone(m.v, Flat(was), n, 0, End(was, 0), pos, check);
    }
  }

  // What one owner does to a local, deferred and in memory.

  datatype LocalOp = LocalWriteOp(clock: VClock, storageLive: bool) | LocalReadOp(clock: VClock)

  function Deferred(index: nat, c: Clocks, op: LocalOp): Clocks {
    match op
    case LocalWriteOp(k, live) => Written(c, live, At(k, index))
    case LocalReadOp(k) => c.(read := At(k, index))
  }

  function DeferredAll(index: nat, c: Clocks, ops: seq<LocalOp>): Clocks
    decreases |ops|
  {
    if ops == [] then c else DeferredAll(index, Deferred(index, c, ops[0]), ops[1..])
  }

  /** The same operation on memory: going live allocates, anything else is an ordinary access. */
  function InMemory(index: nat, c: Cell, op: LocalOp): CellResult {
    match op
    case LocalWriteOp(k, true) => CellResult(NewCell(At(k, index), index), true)
    case LocalWriteOp(k, false) => NonAtomicWrite(c, k, index, PlainWrite)
    case LocalReadOp(k) => NonAtomicRead(c, k, index)
  }

  function InMemoryAll(index: nat, c: Cell, ops: seq<LocalOp>): CellResult
    decreases |ops|
  {
    if ops == [] then CellResult(c, true)
    else
      var r := InMemory(index, c, ops[0]);
      if r.ok then InMemoryAll(index, r.cell, ops[1..]) else r
  }

  /** The owner's timestamp never goes back. */
  predicate Timely(index: nat, from: nat, ops: seq<LocalOp>)
    decreases |ops|
  {
    ops == [] || (from <= At(ops[0].clock, index) && Timely(index, At(ops[0].clock, index), ops[1..]))
  }

  // Cells that no check can tell apart.

  /** Equal, except that the read clock may hold a stale stamp of the writer, not after the write. */
  ghost predicate Alike(d: Cell, m: Cell) {
    && d.(read := []) == m.(read := [])
    && At(m.read, d.writeIndex) <= At(d.read, d.writeIndex)
    && (At(m.read, d.writeIndex) != At(d.read, d.writeIndex) ==> At(d.read, d.writeIndex) <= d.writeStamp)
    && forall i: nat {:trigger At(d.read, i)} :: i != d.writeIndex ==> At(d.read, i) == At(m.read, i)
  }

  /** Once the last write is in the past, so is a stale read. */
  lemma AlikeReads(d: Cell, m: Cell, k: VClock)
    requires Alike(d, m)
    ensures WriteWasBefore(d, k) == WriteWasBefore(m, k)
    ensures WriteWasBefore(d, k) ==> (Leq(d.read, k) <==> Leq(m.read, k))
  {
    LeqPointwise(d.read, k);
    LeqPointwise(m.read, k);
    if WriteWasBefore(d, k) {
      if Leq(m.read, k) {
        forall i: nat ensures At(d.read, i) <= At(k, i) {
          assert At(m.read, i) <= At(k, i);
        }
      }
      if Leq(d.read, k) {
        forall i: nat ensures At(m.read, i) <= At(k, i) {
          assert At(d.read, i) <= At(k, i);
        }
      }
    }
  }

  /** Both record a read the same way, even where the "may only increase" assertion fails. */
  lemma AlikeRead(d: Cell, m: Cell, k: VClock, index: nat)
    requires Alike(d, m) && WriteWasBefore(d, k)
    ensures MaySetAtIndex(d.read, k, index) <==> MaySetAtIndex(m.read, k, index)
    ensures Alike(d.(read := SetAtIndex(d.read, k, index)), m.(read := SetAtIndex(m.read, k, index)))
  {
    var d', m' := d.(read := SetAtIndex(d.read, k, index)), m.(read := SetAtIndex(m.read, k, index));
    assert At(d.read, index) == At(d.read, index);
    forall i: nat ensures i != d.writeIndex ==> At(d'.read, i) == At(m'.read, i) {
      assert At(d.read, i) == At(d.read, i);
      assert i != index ==> At(d'.read, i) == At(d.read, i) && At(m'.read, i) == At(m.read, i);
    }
  }

  // Every operation by any thread with any clocks treats alike cells alike.

  ghost predicate AlikeResults(d: CellResult, m: CellResult) {
    d.ok == m.ok && Alike(d.cell, m.cell)
  }

  ghost predicate AlikeOps(d: OpResult, m: OpResult) {
    d.ok == m.ok && d.clocks == m.clocks && Alike(d.cell, m.cell)
  }

  lemma AlikeNonAtomic(d: Cell, m: Cell, k: VClock, index: nat, wt: NaWriteType)
    requires Alike(d, m)
    ensures AlikeResults(NonAtomicRead(d, k, index), NonAtomicRead(m, k, index))
    ensures AlikeResults(NonAtomicWrite(d, k, index, wt), NonAtomicWrite(m, k, index, wt))
  {
    AlikeReads(d, m, k);
    if WriteWasBefore(d, k) {
      AlikeRead(d, m, k, index);
    }
  }

  lemma AlikeWriteDetect(d: Cell, m: Cell, clock: VClock, index: nat, size: nat)
    requires Alike(d, m)
    ensures AlikeResults(AtomicWriteDetect(d, clock, index, size), AtomicWriteDetect(m, clock, index, size))
    ensures AtomicWriteDetect(d, clock, index, size).cell.atomicOps == AtomicWriteDetect(m, clock, index, size).cell.atomicOps
  {
    AlikeReads(d, m, clock);
    AlikeSizes(d, m, clock, size, true);
  }

  lemma AlikeAtomicWrite(d: Cell, m: Cell, tc: ThreadClocks, index: nat, size: nat, release: bool)
    requires Alike(d, m)
    ensures AlikeOps(AtomicStore(d, tc, index, size, release), AtomicStore(m, tc, index, size, release))
    ensures AlikeOps(RmwWrite(d, tc, index, size, release), RmwWrite(m, tc, index, size, release))
  {
    AlikeWriteDetect(d, m, tc.clock, index, size);
  }

  lemma AlikeLoad(d: Cell, m: Cell, tc: ThreadClocks, index: nat, size: nat, acquire: bool)
    requires Alike(d, m)
    ensures AlikeOps(AtomicLoad(d, tc, index, size, acquire), AtomicLoad(m, tc, index, size, acquire))
  {
    AlikeReads(d, m, tc.clock);
    AlikeSizes(d, m, tc.clock, size, false);
    var xd, xm := AtomicAccess(d, tc.clock, size, false), AtomicAccess(m, tc.clock, size, false);
    assert xd.ok ==> xd.cell.atomicOps == xm.cell.atomicOps;
  }

  /** The atomic metadata of alike cells is the same, and so is what a size check makes of it. */
  lemma AlikeSizes(d: Cell, m: Cell, clock: VClock, size: nat, write: bool)
    requires Alike(d, m)
    ensures AlikeResults(AtomicAccess(d, clock, size, write), AtomicAccess(m, clock, size, write))
    ensures AtomicAccess(d, clock, size, write).cell.atomicOps == AtomicAccess(m, clock, size, write).cell.atomicOps
  {
    var xd, xm := AtomicAccess(d, clock, size, write), AtomicAccess(m, clock, size, write);
    assert d.atomicOps == m.atomicOps && xd.cell.read == d.read && xm.cell.read == m.read;
  }

  lemma AlikeRmw(d: Cell, m: Cell, tc: ThreadClocks, index: nat, size: nat, acquire: bool, release: bool)
    requires Alike(d, m)
    ensures AlikeOps(AtomicRmw(d, tc, index, size, acquire, release), AtomicRmw(m, tc, index, size, acquire, release))
  {
    AlikeLoad(d, m, tc, index, size, acquire);
    var rd, rm := AtomicLoad(d, tc, index, size, acquire), AtomicLoad(m, tc, index, size, acquire);
    if rd.ok {
      AlikeAtomicWrite(rd.cell, rm.cell, rd.clocks, index, size, release);
    }
  }

  lemma AlikePerform(d: Cell, m: Cell, tc: ThreadClocks, index: nat, a: Attempt)
    requires Alike(d, m)
    ensures AlikeOps(Perform(d, tc, index, a), Perform(m, tc, index, a))
  {
    match a
    case TryRead => AlikeNonAtomic(d, m, tc.clock, index, PlainWrite);
    case TryWrite(wt) => AlikeNonAtomic(d, m, tc.clock, index, wt);
    case TryLoad(size, acquire) => AlikeLoad(d, m, tc, index, size, acquire);
    case TryStore(size, release) => AlikeAtomicWrite(d, m, tc, index, size, release);
    case TryRmw(size, acquire, release) => AlikeRmw(d, m, tc, index, size, acquire, release);
  }

  // The whole detector.

  ghost predicate AlikeStates(d: D.State, m: D.State) {
    && d.g == m.g && d.tokens == m.tokens && d.cells.Keys == m.cells.Keys
    && forall l :: l in d.cells ==> Alike(d.cells[l], m.cells[l])
  }

  lemma AlikeFinish(d: D.State, m: D.State, t: nat, loc: nat, rd: OpResult, rm: OpResult)
    requires AlikeStates(d, m) && AlikeOps(rd, rm) && loc in d.cells
    ensures var x, y := D.FinishAtomic(d, t, loc, rd), D.FinishAtomic(m, t, loc, rm);
      x.ok == y.ok && AlikeStates(x.state, y.state)
  {
  }

  lemma AlikeFinishPlain(d: D.State, m: D.State, loc: nat, rd: OpResult, rm: OpResult)
    requires AlikeStates(d, m) && AlikeOps(rd, rm) && loc in d.cells
    ensures var x, y := D.FinishNonAtomic(d, loc, rd), D.FinishNonAtomic(m, loc, rm);
      x.ok == y.ok && AlikeStates(x.state, y.state)
  {
  }

  lemma AlikeAccess(d: D.State, m: D.State, a: Action)
    requires AlikeStates(d, m) && IsAccess(a) && a.loc in d.cells
    ensures var x, y := D.AccessStep(d, a), D.AccessStep(m, a); x.ok == y.ok && AlikeStates(x.state, y.state)
  {
    var tc, i := D.ClocksOf(d.g, a.t), D.ThreadIndex(d.g, a.t);
    var rd, rm := Perform(d.cells[a.loc], tc, i, AttemptOf(a)), Perform(m.cells[a.loc], tc, i, AttemptOf(a));
    AlikePerform(d.cells[a.loc], m.cells[a.loc], tc, i, AttemptOf(a));
    AlikeFinish(d, m, a.t, a.loc, rd, rm);
    AlikeFinishPlain(d, m, a.loc, rd, rm);
  }

  lemma AlikeStep(d: D.State, m: D.State, a: Action)
    requires AlikeStates(d, m) && D.Enabled(d, a)
    ensures D.Enabled(m, a)
    ensures D.Step(d, a).ok == D.Step(m, a).ok && AlikeStates(D.Step(d, a).state, D.Step(m, a).state)
  {
    if IsAccess(a) {
      AlikeAccess(d, m, a);
    }
  }

  /** Alike states give the same verdicts for ever. */
  lemma {:induction false} AlikeForever(d: D.State, m: D.State, acts: seq<Action>)
    requires AlikeStates(d, m)
    ensures Steps(d, acts).ok == Steps(m, acts).ok && AlikeStates(Steps(d, acts).state, Steps(m, acts).state)
    decreases |acts|
  {
    if acts != [] {
      assert D.Enabled(d, acts[0]) == D.Enabled(m, acts[0]);
      if D.Enabled(d, acts[0]) {
        AlikeStep(d, m, acts[0]);
        if D.Step(d, acts[0]).ok {
          AlikeForever(D.Step(d, acts[0]).state, D.Step(m, acts[0]).state, acts[1..]);
        }
      }
    }
  }

  // A local's own history.

  /** Before it moves: the kept clocks describe the cell it would have had. */
  ghost predicate Tracks(index: nat, c: Clocks, m: Cell, now: nat) {
    && m.writeIndex == index && m.atomicOps == None && c.write <= now && c.read <= now
    && Alike(MovedCell(m, c, index), m)
  }

  lemma TracksBelow(index: nat, c: Clocks, m: Cell, now: nat, k: VClock)
    requires Tracks(index, c, m, now) && now <= At(k, index)
    ensures Leq(m.read, k) && forall i: nat :: i != index ==> At(m.read, i) == 0
  {
    var d := MovedCell(m, c, index);
    forall i: nat ensures At(m.read, i) <= At(k, i) && (i != index ==> At(m.read, i) == 0) {
      assert At(d.read, i) == At(Singleton(index, c.read), i);
    }
    LeqPointwise(m.read, k);
  }

  lemma TracksRead(index: nat, c: Clocks, m: Cell, now: nat, k: VClock)
    requires Tracks(index, c, m, now) && now <= At(k, index)
    ensures NonAtomicRead(m, k, index).ok
    ensures Tracks(index, c.(read := At(k, index)), NonAtomicRead(m, k, index).cell, At(k, index))
  {
    TracksBelow(index, c, m, now, k);
    var c', m' := c.(read := At(k, index)), NonAtomicRead(m, k, index).cell;
    forall i: nat ensures i != index ==> At(MovedCell(m', c', index).read, i) == At(m'.read, i) {
      assert At(m.read, i) == At(m.read, i);
    }
  }

  lemma TracksWrite(index: nat, c: Clocks, m: Cell, now: nat, k: VClock, live: bool)
    requires Tracks(index, c, m, now) && now <= At(k, index)
    ensures InMemory(index, m, LocalWriteOp(k, live)).ok
    ensures Tracks(index, Written(c, live, At(k, index)), InMemory(index, m, LocalWriteOp(k, live)).cell, At(k, index))
  {
    TracksBelow(index, c, m, now, k);
  }

  lemma TracksStep(index: nat, c: Clocks, m: Cell, now: nat, op: LocalOp)
    requires Tracks(index, c, m, now) && now <= At(op.clock, index)
    ensures InMemory(index, m, op).ok
    ensures Tracks(index, Deferred(index, c, op), InMemory(index, m, op).cell, At(op.clock, index))
  {
    match op
    case LocalReadOp(k) => TracksRead(index, c, m, now, k);
    case LocalWriteOp(k, live) => TracksWrite(index, c, m, now, k, live);
  }

  lemma {:induction false} TracksAll(index: nat, c: Clocks, m: Cell, now: nat, ops: seq<LocalOp>)
    requires Tracks(index, c, m, now) && Timely(index, now, ops)
    ensures InMemoryAll(index, m, ops).ok
    ensures Alike(MovedCell(InMemoryAll(index, m, ops).cell, DeferredAll(index, c, ops), index), InMemoryAll(index, m, ops).cell)
    ensures InMemoryAll(index, m, ops).cell.writeIndex == index && InMemoryAll(index, m, ops).cell.atomicOps == None
    decreases |ops|
  {
    if ops != [] {
      TracksStep(index, c, m, now, ops[0]);
      TracksAll(index, Deferred(index, c, ops[0]), InMemory(index, m, ops[0]).cell, At(ops[0].clock, index), ops[1..]);
    }
  }

  /** A local used by its owner from its first write on, then moved to memory allocated at `moved`:
      in memory it would have passed every check, and the cell it gets is alike to the one it would have. */
  lemma {:induction false} DeferredIsInMemory(index: nat, before: Clocks, alloc: nat, moved: nat, ops: seq<LocalOp>)
    requires ops != [] && ops[0].LocalWriteOp? && Timely(index, alloc, ops) && before.read <= alloc
    ensures InMemoryAll(index, NewCell(alloc, index), ops).ok
    ensures Alike(MovedCell(NewCell(moved, index), DeferredAll(index, before, ops), index),
                  InMemoryAll(index, NewCell(alloc, index), ops).cell)
  {
    var k := ops[0].clock;
    var m := InMemory(index, NewCell(alloc, index), ops[0]).cell;
    var c := Deferred(index, before, ops[0]);
    forall i: nat ensures i != index ==> At(MovedCell(m, c, index).read, i) == At(m.read, i) {
    }
    assert Tracks(index, c, m, At(k, index));
    TracksAll(index, c, m, At(k, index), ops[1..]);
    var end := InMemoryAll(index, m, ops[1..]).cell;
    assert MovedCell(NewCell(moved, index), DeferredAll(index, before, ops), index) ==
      MovedCell(end, DeferredAll(index, before, ops), index);
  }

  /** So whatever any threads do next, deferring a local's clocks changes no verdict. */
  lemma DeferringIsInvisible(
      s: D.State, loc: nat, index: nat, before: Clocks, alloc: nat, moved: nat, ops: seq<LocalOp>, acts: seq<Action>)
    requires ops != [] && ops[0].LocalWriteOp? && Timely(index, alloc, ops) && before.read <= alloc
    ensures var c, m := MovedCell(NewCell(moved, index), DeferredAll(index, before, ops), index),
                        InMemoryAll(index, NewCell(alloc, index), ops);
      m.ok && Steps(s.(cells := s.cells[loc := c]), acts).ok == Steps(s.(cells := s.cells[loc := m.cell]), acts).ok
  {
    DeferredIsInMemory(index, before, alloc, moved, ops);
    var c := MovedCell(NewCell(moved, index), DeferredAll(index, before, ops), index);
    var m := InMemoryAll(index, NewCell(alloc, index), ops).cell;
    AlikeForever(s.(cells := s.cells[loc := c]), s.(cells := s.cells[loc := m]), acts);
  }
}
