/** Locals from before the first thread creation. Nothing recorded their first write, so it is backdated
    to the beginning of time; in memory it would have the stamp of the allocation. Every thread has
    seen both stamps, so again no later step of any thread can tell the difference. */
module BackdatedLocals {
  import opened Wrappers
  import opened VectorClocks
  import opened Actions
  import opened ShadowCells
  import opened ClockRefinement
  import opened ClockSteps
  import opened Runs
  import opened BlockDetection
  import opened LocalClocks
  import D = Detector
  import E = EventSets

  /** Equal, except for two write stamps of one index that are both at most `floor`. */
  predicate Restamped(floor: nat, index: nat, d: Cell, m: Cell) {
    d == m.(writeStamp := d.writeStamp) && m.writeIndex == index && d.writeStamp <= floor && m.writeStamp <= floor
  }

  ghost predicate Close(floor: nat, index: nat, d: Cell, m: Cell) {
    Alike(d, m) || Restamped(floor, index, d, m)
  }

  ghost predicate CloseOps(floor: nat, index: nat, d: OpResult, m: OpResult) {
    d.ok == m.ok && d.clocks == m.clocks && Close(floor, index, d.cell, m.cell)
  }

  lemma RestampedDetects(floor: nat, index: nat, d: Cell, m: Cell, k: VClock, i: nat, size: nat)
    requires Restamped(floor, index, d, m) && floor <= At(k, index)
    ensures var x, y := AtomicReadDetect(d, k, i, size), AtomicReadDetect(m, k, i, size);
      x.ok == y.ok && Restamped(floor, index, x.cell, y.cell)
    ensures var x, y := AtomicWriteDetect(d, k, i, size), AtomicWriteDetect(m, k, i, size);
      x.ok == y.ok && Restamped(floor, index, x.cell, y.cell)
  {
    RestampedSizes(d, m, k, size, false);
    RestampedSizes(d, m, k, size, true);
  }

  lemma RestampedSizes(d: Cell, m: Cell, k: VClock, size: nat, write: bool)
    requires d == m.(writeStamp := d.writeStamp)
    ensures var x, y := AtomicAccess(d, k, size, write), AtomicAccess(m, k, size, write);
      x.ok == y.ok && x.cell == y.cell.(writeStamp := d.writeStamp) && y.cell.writeStamp == m.writeStamp
  {
  }

  lemma RestampedLoads(floor: nat, index: nat, d: Cell, m: Cell, tc: ThreadClocks, i: nat, size: nat, acquire: bool)
    requires Restamped(floor, index, d, m) && floor <= At(tc.clock, index)
    ensures var x, y := AtomicLoad(d, tc, i, size, acquire), AtomicLoad(m, tc, i, size, acquire);
      x.ok == y.ok && x.clocks == y.clocks && Restamped(floor, index, x.cell, y.cell) && floor <= At(x.clocks.clock, index)
  {
    RestampedDetects(floor, index, d, m, tc.clock, i, size);
  }

  lemma RestampedStores(floor: nat, index: nat, d: Cell, m: Cell, tc: ThreadClocks, i: nat, size: nat, release: bool)
    requires Restamped(floor, index, d, m) && floor <= At(tc.clock, index)
    ensures var x, y := AtomicStore(d, tc, i, size, release), AtomicStore(m, tc, i, size, release);
      x.ok == y.ok && x.clocks == y.clocks && Restamped(floor, index, x.cell, y.cell)
    ensures var x, y := RmwWrite(d, tc, i, size, release), RmwWrite(m, tc, i, size, release);
      x.ok == y.ok && x.clocks == y.clocks && Restamped(floor, index, x.cell, y.cell)
  {
    RestampedDetects(floor, index, d, m, tc.clock, i, size);
  }

  lemma RestampedPlain(floor: nat, index: nat, d: Cell, m: Cell, k: VClock, i: nat, wt: NaWriteType)
    requires Restamped(floor, index, d, m) && floor <= At(k, index)
    ensures var x, y := NonAtomicRead(d, k, i), NonAtomicRead(m, k, i); x.ok == y.ok && Restamped(floor, index, x.cell, y.cell)
    ensures var x, y := NonAtomicWrite(d, k, i, wt), NonAtomicWrite(m, k, i, wt);
      x.ok == y.ok && if x.ok then x.cell == y.cell else Restamped(floor, index, x.cell, y.cell)
  {
  }

  lemma AlikeSelf(c: Cell)
    ensures Alike(c, c)
  {
  }

  /** Every access by a thread that has seen `floor` treats close cells alike. */
  lemma ClosePerform(floor: nat, index: nat, d: Cell, m: Cell, tc: ThreadClocks, i: nat, a: Attempt)
    requires Close(floor, index, d, m) && floor <= At(tc.clock, index)
    ensures CloseOps(floor, index, Perform(d, tc, i, a), Perform(m, tc, i, a))
  {
    if Alike(d, m) {
      AlikePerform(d, m, tc, i, a);
    } else {
      match a
      case TryRead => RestampedPlain(floor, index, d, m, tc.clock, i, PlainWrite);
      case TryWrite(wt) =>
        RestampedPlain(floor, index, d, m, tc.clock, i, wt);
        AlikeSelf(NonAtomicWrite(m, tc.clock, i, wt).cell);
      case TryLoad(size, acquire) => RestampedLoads(floor, index, d, m, tc, i, size, acquire);
      case TryStore(size, release) => RestampedStores(floor, index, d, m, tc, i, size, release);
      case TryRmw(size, acquire, release) => RestampedRmw(floor, index, d, m, tc, i, size, acquire, release);
    }
  }

  lemma RestampedRmw(
      floor: nat, index: nat, d: Cell, m: Cell, tc: ThreadClocks, i: nat, size: nat, acquire: bool, release: bool)
    requires Restamped(floor, index, d, m) && floor <= At(tc.clock, index)
    ensures var x, y := AtomicRmw(d, tc, i, size, acquire, release), AtomicRmw(m, tc, i, size, acquire, release);
      x.ok == y.ok && x.clocks == y.clocks && Restamped(floor, index, x.cell, y.cell)
  {
    RestampedLoads(floor, index, d, m, tc, i, size, acquire);
    var x, y := AtomicLoad(d, tc, i, size, acquire), AtomicLoad(m, tc, i, size, acquire);
    if x.ok {
      RestampedStores(floor, index, x.cell, y.cell, x.clocks, i, size, release);
    }
  }

  /** Every vector index has seen timestamp `floor` of `index`; the tables fit the clocks. */
  ghost predicate Known(g: D.Globals, index: nat, floor: nat) {
    && 1 <= |g.clocks| == |g.vectorInfo|
    && (forall t :: 0 <= t < |g.threadInfo| && g.threadInfo[t].vectorIndex.Some? ==> g.threadInfo[t].vectorIndex.value < |g.clocks|)
    && (forall t :: 0 <= t < |g.clocks| ==> floor <= At(g.clocks[t].clock, index))
  }

  lemma KnownClocks(g: D.Globals, index: nat, floor: nat, t: nat, tc: ThreadClocks)
    requires Known(g, index, floor)
    ensures floor <= At(D.ClocksOf(g, t).clock, index)
    ensures floor <= At(tc.clock, index) ==> Known(D.WithClocks(g, t, tc), index, floor)
  {
  }

  lemma KnownTicks(g: D.Globals, index: nat, floor: nat, t: nat, k: VClock)
    requires Known(g, index, floor)
    ensures Known(D.IncrementOwn(g, t), index, floor) && Known(D.AcquireInto(g, t, k), index, floor)
  {
    var tc := D.ClocksOf(g, t);
    KnownClocks(g, index, floor, t, tc.(clock := Increment(tc.clock, D.ThreadIndex(g, t))));
    KnownClocks(g, index, floor, t, tc.(clock := Join(tc.clock, k)));
  }

  lemma KnownSync(clocks: seq<ThreadClocks>, current: nat, created: nat, index: nat, floor: nat)
    requires current < |clocks| && created < |clocks|
    requires forall t :: 0 <= t < |clocks| && t != created ==> floor <= At(clocks[t].clock, index)
    requires created == current ==> floor <= At(clocks[created].clock, index)
    ensures var r := D.CreationSync(clocks, current, created);
      |r| == |clocks| && forall t :: 0 <= t < |r| ==> floor <= At(r[t].clock, index)
  {
  }

  lemma IndexedBelow(info: seq<D.ThreadExtra>, child: nat, i: nat, n: nat)
    requires i < n && forall t :: 0 <= t < |info| && info[t].vectorIndex.Some? ==> info[t].vectorIndex.value < n
    ensures forall t :: 0 <= t < |D.Indexed(info, child, i)| && D.Indexed(info, child, i)[t].vectorIndex.Some? ==>
      D.Indexed(info, child, i)[t].vectorIndex.value < n
  {
  }

  lemma KnownCreated(g: D.Globals, index: nat, floor: nat, t: nat, child: nat)
    requires Known(g, index, floor)
    ensures Known(D.CreatedFresh(g, t, child), index, floor)
  {
    KnownSync(g.clocks + [NO_CLOCKS], D.ThreadIndex(g, t), |g.clocks|, index, floor);
    IndexedBelow(g.threadInfo, child, |g.clocks|, |g.clocks| + 1);
  }

  lemma KnownReused(g: D.Globals, index: nat, floor: nat, t: nat, child: nat, i: nat)
    requires Known(g, index, floor)
    ensures Known(D.CreatedReusing(g, t, child, i), index, floor)
  {
    if i < |g.clocks| {
      var clocks := g.clocks[i := g.clocks[i].(clock := Increment(g.clocks[i].clock, i))];
      KnownSync(clocks, D.ThreadIndex(g, t), i, index, floor);
      var older, info := g.vectorInfo[i], D.Extended(g.threadInfo, child);
      var info' := if older < |info| then info[older := info[older].(vectorIndex := None)] else info;
      IndexedBelow(info', child, i, |g.clocks|);
    }
  }

  lemma KnownFenced(g: D.Globals, index: nat, floor: nat, t: nat, ord: FenceOrd)
    requires Known(g, index, floor)
    ensures Known(D.AtomicFence(g, t, ord), index, floor)
  {
    var f := D.Fenced(D.ClocksOf(g, t), g.lastScFence, ord);
    KnownClocks(g, index, floor, t, f.0);
    KnownTicks(D.WithClocks(g, t, f.0).(lastScFence := f.1), index, floor, t, []);
  }

  /** Accesses only add to their thread's clock. */
  lemma KnownPerformed(g: D.Globals, index: nat, floor: nat, t: nat, c: Cell, a: Attempt)
    requires Known(g, index, floor)
    ensures var r := Perform(c, D.ClocksOf(g, t), D.ThreadIndex(g, t), a);
      Known(D.WithClocks(g, t, r.clocks), index, floor) && Known(D.IncrementOwn(D.WithClocks(g, t, r.clocks), t), index, floor)
  {
    var r := Perform(c, D.ClocksOf(g, t), D.ThreadIndex(g, t), a);
    KnownClocks(g, index, floor, t, r.clocks);
    PerformOnlyAdds(c, D.ClocksOf(g, t), D.ThreadIndex(g, t), a, index);
    KnownTicks(D.WithClocks(g, t, r.clocks), index, floor, t, []);
  }

  lemma PerformOnlyAdds(c: Cell, tc: ThreadClocks, i: nat, a: Attempt, index: nat)
    ensures At(tc.clock, index) <= At(Perform(c, tc, i, a).clocks.clock, index)
  {
  }

  lemma KnownAccess(s: D.State, a: Action, index: nat, floor: nat)
    requires Known(s.g, index, floor) && D.Enabled(s, a) && IsAccess(a)
    ensures Known(D.Step(s, a).state.g, index, floor)
  {
    KnownPerformed(s.g, index, floor, a.t, s.cells[a.loc], AttemptOf(a));
  }

  lemma KnownJoined(g: D.Globals, index: nat, floor: nat, t: nat, joinee: nat)
    requires Known(g, index, floor) && D.Terminated(g, joinee)
    ensures Known(D.ThreadJoined(g, t, joinee), index, floor)
  {
    KnownTicks(g, index, floor, t, g.threadInfo[joinee].termination.value);
  }

  lemma KnownTerminated(g: D.Globals, index: nat, floor: nat, t: nat)
    requires Known(g, index, floor)
    ensures Known(D.ThreadTerminated(g, t), index, floor)
  {
    KnownTicks(g, index, floor, t, []);
  }

  lemma KnownStep(s: D.State, a: Action, index: nat, floor: nat)
    requires Known(s.g, index, floor) && D.Enabled(s, a)
    ensures Known(D.Step(s, a).state.g, index, floor)
  {
    var g, t := s.g, a.t;
    match a
    case Create(_, child) =>
      var c := D.ReuseCandidate(g);
      if c.None? { KnownCreated(g, index, floor, t, child); } else { KnownReused(g, index, floor, t, child, c.value); }
    case Terminate(_) => KnownTerminated(g, index, floor, t);
    case JoinThread(_, joinee) => KnownJoined(g, index, floor, t, joinee);
    case ReleaseClock(_, _) => KnownTicks(g, index, floor, t, []);
    case AcquireClock(_, token) => KnownTicks(g, index, floor, t, s.tokens[token]);
    case Fence(_, ord) => KnownFenced(g, index, floor, t, ord);
    case Allocate(_, _, _) =>
    case _ => KnownAccess(s, a, index, floor);
  }

  ghost predicate CloseStates(floor: nat, index: nat, d: D.State, m: D.State) {
    && d.g == m.g && d.tokens == m.tokens && d.cells.Keys == m.cells.Keys
    && forall l :: l in d.cells ==> Close(floor, index, d.cells[l], m.cells[l])
  }

  lemma CloseFinish(floor: nat, index: nat, d: D.State, m: D.State, a: Action, rd: OpResult, rm: OpResult)
    requires CloseStates(floor, index, d, m) && CloseOps(floor, index, rd, rm) && IsAccess(a) && a.loc in d.cells
    ensures var x, y := D.FinishAtomic(d, a.t, a.loc, rd), D.FinishAtomic(m, a.t, a.loc, rm);
      x.ok == y.ok && CloseStates(floor, index, x.state, y.state)
    ensures var x, y := D.FinishNonAtomic(d, a.loc, rd), D.FinishNonAtomic(m, a.loc, rm);
      x.ok == y.ok && CloseStates(floor, index, x.state, y.state)
  {
  }

  lemma CloseAccess(floor: nat, index: nat, d: D.State, m: D.State, a: Action)
    requires CloseStates(floor, index, d, m) && Known(d.g, index, floor) && IsAccess(a) && a.loc in d.cells
    ensures var x, y := D.AccessStep(d, a), D.AccessStep(m, a); x.ok == y.ok && CloseStates(floor, index, x.state, y.state)
  {
    var tc, i := D.ClocksOf(d.g, a.t), D.ThreadIndex(d.g, a.t);
    var rd, rm := Perform(d.cells[a.loc], tc, i, AttemptOf(a)), Perform(m.cells[a.loc], tc, i, AttemptOf(a));
    KnownClocks(d.g, index, floor, a.t, tc);
    ClosePerform(floor, index, d.cells[a.loc], m.cells[a.loc], tc, i, AttemptOf(a));
    CloseFinish(floor, index, d, m, a, rd, rm);
  }

  lemma CloseStep(floor: nat, index: nat, d: D.State, m: D.State, a: Action)
    requires CloseStates(floor, index, d, m) && Known(d.g, index, floor) && D.Enabled(d, a)
    ensures D.Enabled(m, a)
    ensures D.Step(d, a).ok == D.Step(m, a).ok && CloseStates(floor, index, D.Step(d, a).state, D.Step(m, a).state)
  {
    if IsAccess(a) {
      CloseAccess(floor, index, d, m, a);
    } else if a.Allocate? {
      AlikeSelf(D.Step(m, a).state.cells[a.loc]);
    }
  }

  /** Close states give the same verdicts for ever. */
  lemma {:induction false} CloseForever(floor: nat, index: nat, d: D.State, m: D.State, acts: seq<Action>)
    requires CloseStates(floor, index, d, m) && Known(d.g, index, floor)
    ensures Steps(d, acts).ok == Steps(m, acts).ok && CloseStates(floor, index, Steps(d, acts).state, Steps(m, acts).state)
    decreases |acts|
  {
    if acts != [] {
      assert D.Enabled(d, acts[0]) == D.Enabled(m, acts[0]);
      if D.Enabled(d, acts[0]) {
        CloseStep(floor, index, d, m, acts[0]);
        KnownStep(d, acts[0], index, floor);
        if D.Step(d, acts[0]).ok {
          CloseForever(floor, index, D.Step(d, acts[0]).state, D.Step(m, acts[0]).state, acts[1..]);
        }
      }
    }
  }

  // A backdated local's own history.

  /** Only reads so far: the owner's last one is all there is to know. */
  lemma {:induction false} ReadsTrack(index: nat, read: nat, m: Cell, alloc: nat, now: nat, ops: seq<LocalOp>)
    requires m == NewCell(alloc, index).(read := Singleton(index, read)) && alloc <= now && read <= now && Timely(index, now, ops)
    ensures InMemoryAll(index, m, ops).ok && InMemoryAll(index, m, ops).cell.writeIndex == index
    ensures InMemoryAll(index, m, ops).cell.atomicOps == None
    ensures Close(alloc, index, MovedCell(InMemoryAll(index, m, ops).cell, DeferredAll(index, BACKDATED.(read := read), ops), index),
                  InMemoryAll(index, m, ops).cell)
    decreases |ops|
  {
    if ops != [] {
      var c, op := BACKDATED.(read := read), ops[0];
      var ts := At(op.clock, index);
      if op.LocalReadOp? {
        Extensional(SetAtIndex(m.read, op.clock, index), Singleton(index, ts));
        ReadsTrack(index, ts, InMemory(index, m, op).cell, alloc, ts, ops[1..]);
      } else {
        FirstWriteTracks(index, c, m, now, op);
        TracksAll(index, Deferred(index, c, op), InMemory(index, m, op).cell, ts, ops[1..]);
      }
    }
  }

  /** From the first recorded write on, the kept clocks describe the cell. */
  lemma FirstWriteTracks(index: nat, c: Clocks, m: Cell, now: nat, op: LocalOp)
    requires op.LocalWriteOp? && m.writeIndex == index && m.atomicOps == None && m.read == Singleton(index, c.read)
    requires m.writeStamp <= now && c.read <= now <= At(op.clock, index)
    ensures InMemory(index, m, op).ok
    ensures Tracks(index, Deferred(index, c, op), InMemory(index, m, op).cell, At(op.clock, index))
  {
    LeqPointwise(m.read, op.clock);
  }

  /** A backdated local, then moved to memory allocated at `moved`: in memory it would have passed every
      check, and its cell is close to the one it would have. */
  lemma {:induction false} BackdatedIsInMemory(index: nat, alloc: nat, moved: nat, ops: seq<LocalOp>)
    requires Timely(index, alloc, ops)
    ensures InMemoryAll(index, NewCell(alloc, index), ops).ok
    ensures Close(alloc, index, MovedCell(NewCell(moved, index), DeferredAll(index, BACKDATED, ops), index),
                  InMemoryAll(index, NewCell(alloc, index), ops).cell)
  {
    var m := NewCell(alloc, index);
    ReadsTrack(index, 0, m, alloc, alloc, ops);
    var end := InMemoryAll(index, m, ops).cell;
    assert BACKDATED.(read := 0) == BACKDATED;
    assert MovedCell(NewCell(moved, index), DeferredAll(index, BACKDATED, ops), index) ==
      MovedCell(end, DeferredAll(index, BACKDATED, ops), index);
  }

  /** So once every thread has seen the allocation, whatever any threads do next, the missing record
      of a local's first write changes no verdict. */
  lemma BackdatingIsInvisible(
      s: D.State, loc: nat, index: nat, alloc: nat, moved: nat, ops: seq<LocalOp>, acts: seq<Action>)
    requires Timely(index, alloc, ops) && Known(s.g, index, alloc)
    ensures var c, m := MovedCell(NewCell(moved, index), DeferredAll(index, BACKDATED, ops), index),
                        InMemoryAll(index, NewCell(alloc, index), ops);
      m.ok && Steps(s.(cells := s.cells[loc := c]), acts).ok == Steps(s.(cells := s.cells[loc := m.cell]), acts).ok
  {
    BackdatedIsInMemory(index, alloc, moved, ops);
    var c := MovedCell(NewCell(moved, index), DeferredAll(index, BACKDATED, ops), index);
    var m := InMemoryAll(index, NewCell(alloc, index), ops).cell;
    var d', m' := s.(cells := s.cells[loc := c]), s.(cells := s.cells[loc := m]);
    forall l | l in d'.cells ensures Close(alloc, index, d'.cells[l], m'.cells[l]) {
      AlikeSelf(m'.cells[l]);
    }
    CloseForever(alloc, index, d', m', acts);
  }

  lemma SettledIsKnown(tr: Trace, st: seq<nat>, start: nat, s: D.State, p: E.Sets, i: nat)
    requires Settled(Who(tr), st, start, s, p) && i <= start && i < |tr|
    ensures i < |st| && Known(s.g, tr[i].t, st[i])
  {
    assert Who(tr)[i] == tr[i].t;
    SettledSlot(Who(tr), st, start, s, p, E.OfScFence);
    forall t | 0 <= t < |s.g.clocks| ensures st[i] <= At(s.g.clocks[t].clock, tr[i].t) {
      SettledSlot(Who(tr), st, start, s, p, E.OfThread(t));
    }
  }

  /** And every thread has: in every run, whatever happened before the first thread creation. */
  lemma {:induction false} EarlyIsKnown(tr: Trace, i: nat)
    requires E.WellFormed(tr) && Passes(tr) && i <= FirstCreate(tr) && i < |tr|
    ensures Known(Run(tr).g, tr[i].t, Stamps(tr)[i])
  {
    RunSettles(tr);
    SettledIsKnown(tr, Stamps(tr), FirstCreate(tr), Run(tr), E.Run(tr), i);
  }
}
