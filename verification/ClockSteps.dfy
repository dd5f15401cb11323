/** Every step of the detector keeps its clocks in agreement with the event sets. */
module ClockSteps {
  import opened Wrappers
  import opened VectorClocks
  import opened Actions
  import opened ShadowCells
  import opened ClockRefinement
  import D = Detector
  import E = EventSets

  /** The state between recording `a` as the last position and performing its effect. */
  ghost predicate Ready(c: Context, s: D.State, p: E.Sets, a: Action) {
    && Inv(c, s, p) && c.lag == None
    && |c.who| == c.done + 1 && (c.start == c.done ==> a.Create?) && (a.Create? ==> c.start <= c.done)
    && E.Enabled(p, a) && D.Enabled(s, a)
  }

  /** The invariant once every position has taken effect, for some table of own timestamps. */
  ghost predicate Settled(who: seq<nat>, stamps: seq<nat>, start: nat, s: D.State, p: E.Sets) {
    exists own: seq<nat> :: Inv(Context(who, stamps, own, start, |who|, None), s, p)
  }

  lemma Settle(c: Context, s: D.State, p: E.Sets)
    requires Inv(c, s, p) && c.lag == None && |c.who| == c.done + 1 && c.start != c.done
    ensures Settled(c.who, c.stamps, c.start, s, p)
  {
    var c' := c.(done := |c.who|);
    forall slot | E.HasSlot(p, slot) ensures GoodSlot(c', s, p, slot) {
      assert GoodSlot(c, s, p, slot);
    }
    assert c' == Context(c.who, c.stamps, c.own, c.start, |c.who|, None);
  }

  /** Before the first thread creation the sets may grow while the clocks stand still. */
  lemma SingleThreadedGood(c: Context, multi: bool, slot: E.Slot, k: VClock, m: set<nat>, m': set<nat>)
    requires ValidContext(c) && Good(c, multi, slot, k, m) && c.start == |c.who|
    requires slot.OfThread? ==> m <= m'
    requires forall i :: i in m' ==> i < |c.who|
    ensures Good(c, multi, slot, k, m')
  {
  }

  lemma ThreadSlots(c: Context, s: D.State, p: E.Sets, t: nat)
    requires Inv(c, s, p) && t < |p.threads|
    ensures |c.own| == |p.threads|
    ensures Good(c, s.g.multiThreaded, E.OfThread(t), s.g.clocks[t].clock, p.threads[t].past)
    ensures Storable(c, s.g.multiThreaded, s.g.clocks[t].fenceAcquire, p.threads[t].fenceAcquire)
    ensures Storable(c, s.g.multiThreaded, s.g.clocks[t].fenceRelease, p.threads[t].fenceRelease)
    ensures Storable(c, s.g.multiThreaded, s.g.lastScFence, p.lastScFence)
  {
    assert GoodSlot(c, s, p, E.OfThread(t)) && GoodSlot(c, s, p, E.OfAcquireFence(t)) && GoodSlot(c, s, p, E.OfReleaseFence(t));
    assert GoodSlot(c, s, p, E.OfScFence);
  }

  lemma EmptyStorable(c: Context, s: D.State, p: E.Sets)
    requires Inv(c, s, p) && c.lag == None
    ensures Storable(c, s.g.multiThreaded, [], {})
  {
    assert GoodSlot(c, s, p, E.OfScFence);
    if s.g.multiThreaded {
      forall t | 0 <= t < |c.own| ensures c.own[t] >= 1 {
        assert Foreign(c, true, s.g.lastScFence, t);
      }
    }
    EmptyGood(c, s.g.multiThreaded);
  }

  lemma Terminates(c: Context, s: D.State, p: E.Sets, a: Action)
    requires Ready(c, s, p, a) && a.Terminate?
    ensures Settled(c.who, c.stamps, c.start, D.Step(s, a).state, E.Effect(p, a))
  {
    var t, c' := a.t, c.(lag := Some(a.t));
    var k, m := s.g.clocks[t].clock, p.threads[t].past;
    SetLag(c, s, p, t);
    ThreadSlots(c', s, p, t);
    OwnStorable(c', s.g.multiThreaded, t, k, m);
    PutTerminationInv(c', s, p, t, k, m);
    TickInv(c', PutTermination(s, t, k), E.Effect(p, a), t);
    assert Tick(PutTermination(s, t, k), t) == D.Step(s, a).state;
    Settle(Ticked(c', t), D.Step(s, a).state, E.Effect(p, a));
  }

  lemma ReleasesClock(c: Context, s: D.State, p: E.Sets, a: Action)
    requires Ready(c, s, p, a) && a.ReleaseClock?
    ensures Settled(c.who, c.stamps, c.start, D.Step(s, a).state, E.Effect(p, a))
  {
    var t, c' := a.t, c.(lag := Some(a.t));
    var k, m := s.g.clocks[t].clock, p.threads[t].past;
    SetLag(c, s, p, t);
    ThreadSlots(c', s, p, t);
    OwnStorable(c', s.g.multiThreaded, t, k, m);
    PutTokenInv(c', s, p, a.token, k, m);
    var s' := s.(tokens := s.tokens[a.token := k]);
    TickInv(c', s', E.Effect(p, a), t);
    assert Tick(s', t) == D.Step(s, a).state;
    Settle(Ticked(c', t), D.Step(s, a).state, E.Effect(p, a));
  }

  lemma AcquiresInto(c: Context, s: D.State, p: E.Sets, t: nat, k: VClock, m: set<nat>)
    requires Inv(c, s, p) && t < |p.threads| && Storable(c, s.g.multiThreaded, k, m)
    ensures Inv(c, s.(g := D.AcquireInto(s.g, t, k)), p.(threads := p.threads[t := E.Acquired(p.threads[t], m, true)]))
  {
    ThreadSlots(c, s, p, t);
    var tc, ts := s.g.clocks[t], p.threads[t];
    JoinedGood(c, s.g.multiThreaded, E.OfThread(t), tc.clock, ts.past, k, m);
    PutThreadInv(c, s, p, t, tc.(clock := Join(tc.clock, k)), E.Acquired(ts, m, true));
    assert PutThread(s, t, tc.(clock := Join(tc.clock, k))) == s.(g := D.AcquireInto(s.g, t, k));
  }

  lemma Joins(c: Context, s: D.State, p: E.Sets, a: Action)
    requires Ready(c, s, p, a) && a.JoinThread?
    ensures Settled(c.who, c.stamps, c.start, D.Step(s, a).state, E.Effect(p, a))
  {
    NoSwitchOff(c, s, p, a.t, a.joinee);
    assert GoodSlot(c, s, p, E.OfTermination(a.joinee));
    AcquiresInto(c, s, p, a.t, s.g.threadInfo[a.joinee].termination.value, p.termination[a.joinee].value);
    Settle(c, D.Step(s, a).state, E.Effect(p, a));
  }

  lemma AcquiresClock(c: Context, s: D.State, p: E.Sets, a: Action)
    requires Ready(c, s, p, a) && a.AcquireClock?
    ensures Settled(c.who, c.stamps, c.start, D.Step(s, a).state, E.Effect(p, a))
  {
    assert GoodSlot(c, s, p, E.OfToken(a.token));
    AcquiresInto(c, s, p, a.t, s.tokens[a.token], p.tokens[a.token]);
    Settle(c, D.Step(s, a).state, E.Effect(p, a));
  }

  lemma Allocates(c: Context, s: D.State, p: E.Sets, a: Action)
    requires Ready(c, s, p, a) && a.Allocate?
    ensures Settled(c.who, c.stamps, c.start, D.Step(s, a).state, E.Effect(p, a))
  {
    var s' := D.Step(s, a).state;
    EmptyStorable(c, s, p);
    PutCellInv(c, s, p, a.loc, s'.cells[a.loc], {});
    assert s' == s.(cells := s.cells[a.loc := s'.cells[a.loc]]);
    Settle(c, s', E.Effect(p, a));
  }

  /** What an access does once detection is on: its cell changes, and an atomic one finishes its thread. */
  lemma AccessSteps(s: D.State, a: Action)
    requires Tidy(s.g) && D.Enabled(s, a) && IsAccess(a) && s.g.multiThreaded
    ensures var r := CellAccess(s.cells[a.loc], s.g.clocks[a.t], a);
      D.Step(s, a) == if IsAtomic(a) then D.FinishAtomic(s, a.t, a.loc, r) else D.FinishNonAtomic(s, a.loc, r)
  {
  }

  /** And what it does before: nothing. */
  lemma SingleThreadedSteps(s: D.State, a: Action)
    requires D.Enabled(s, a) && IsAccess(a) && !s.g.multiThreaded
    ensures D.Step(s, a) == D.StepResult(s, true)
  {
  }

  /** What an accepted access leaves at its location for others to acquire, and its thread's clocks. */
  predicate Synced(c: Cell, tc: ThreadClocks, a: Action, r: OpResult)
    requires IsAccess(a)
  {
    match a
    case NaRead(_, _) => SyncVector(r.cell) == SyncVector(c)
    case NaWrite(_, _, _) => SyncVector(r.cell) == []
    case Load(_, _, _, ord) => SyncVector(r.cell) == SyncVector(c) && r.clocks == AcquiredClocks(tc, SyncVector(c), Acquires(ord))
    case Store(_, _, _, ord) => SyncVector(r.cell) == PublishedClock(tc, Releases(ord)) && r.clocks == tc
    case Rmw(_, _, _, ord) =>
      r.clocks == AcquiredClocks(tc, SyncVector(c), RwAcquires(ord)) &&
      SyncVector(r.cell) == Join(SyncVector(c), PublishedClock(r.clocks, RwReleases(ord)))
  }

  lemma AtomicSyncs(c: Cell, tc: ThreadClocks, a: Action)
    requires IsAtomic(a) && CellAccess(c, tc, a).ok
    ensures Synced(c, tc, a, CellAccess(c, tc, a))
  {
    match a
    case Load(t, _, size, ord) => LoadEffect(c, tc, t, size, Acquires(ord));
    case Store(t, _, size, ord) => StoreEffect(c, tc, t, size, Releases(ord)); StoreKeepsClocks(c, tc, t, size, Releases(ord));
    case Rmw(t, _, size, ord) => SyncEffects(c, tc, t, size, RwAcquires(ord), RwReleases(ord));
  }

  lemma StoreKeepsClocks(c: Cell, tc: ThreadClocks, index: nat, size: nat, release: bool)
    ensures AtomicStore(c, tc, index, size, release).clocks == tc
  {
  }

  lemma AccessSyncs(c: Cell, tc: ThreadClocks, a: Action)
    requires IsAccess(a) && CellAccess(c, tc, a).ok
    ensures Synced(c, tc, a, CellAccess(c, tc, a))
  {
    if IsAtomic(a) {
      AtomicSyncs(c, tc, a);
    }
  }

  /** Only a cell changes. */
  lemma CellChanges(c: Context, s: D.State, p: E.Sets, loc: nat, cell: Cell, m: set<nat>)
    requires Inv(c, s, p) && c.lag == None && |c.who| == c.done + 1 && c.start != c.done
    requires Storable(c, s.g.multiThreaded, SyncVector(cell), m)
    ensures Settled(c.who, c.stamps, c.start, s.(cells := s.cells[loc := cell]), p.(sync := p.sync[loc := m]))
  {
    PutCellInv(c, s, p, loc, cell, m);
    Settle(c, s.(cells := s.cells[loc := cell]), p.(sync := p.sync[loc := m]));
  }

  /** A cell changes, but not what others may acquire from it. */
  lemma CellKeepsSync(c: Context, s: D.State, p: E.Sets, loc: nat, cell: Cell)
    requires Inv(c, s, p) && c.lag == None && |c.who| == c.done + 1 && c.start != c.done && loc in p.sync && loc in s.cells
    requires SyncVector(cell) == SyncVector(s.cells[loc])
    ensures Settled(c.who, c.stamps, c.start, s.(cells := s.cells[loc := cell]), p)
  {
    assert GoodSlot(c, s, p, E.OfLocation(loc));
    CellChanges(c, s, p, loc, cell, p.sync[loc]);
    assert p == p.(sync := p.sync[loc := p.sync[loc]]);
  }

  /** A cell changes and forgets what others could acquire from it. */
  lemma CellDropsSync(c: Context, s: D.State, p: E.Sets, loc: nat, cell: Cell)
    requires Inv(c, s, p) && c.lag == None && |c.who| == c.done + 1 && c.start != c.done
    requires SyncVector(cell) == []
    ensures Settled(c.who, c.stamps, c.start, s.(cells := s.cells[loc := cell]), p.(sync := p.sync[loc := {}]))
  {
    EmptyStorable(c, s, p);
    CellChanges(c, s, p, loc, cell, {});
  }

  lemma ReadsNonAtomically(c: Context, s: D.State, p: E.Sets, a: Action)
    requires Ready(c, s, p, a) && a.NaRead? && D.Step(s, a).ok
    ensures Settled(c.who, c.stamps, c.start, D.Step(s, a).state, E.Effect(p, a))
  {
    if s.g.multiThreaded {
      var r := CellAccess(s.cells[a.loc], s.g.clocks[a.t], a);
      AccessSteps(s, a);
      AccessSyncs(s.cells[a.loc], s.g.clocks[a.t], a);
      CellKeepsSync(c, s, p, a.loc, r.cell);
    } else {
      SingleThreadedSteps(s, a);
      Settle(c, s, p);
    }
  }

  lemma WritesNonAtomically(c: Context, s: D.State, p: E.Sets, a: Action)
    requires Ready(c, s, p, a) && a.NaWrite? && D.Step(s, a).ok
    ensures Settled(c.who, c.stamps, c.start, D.Step(s, a).state, E.Effect(p, a))
  {
    if s.g.multiThreaded {
      AccessSteps(s, a);
      AccessSyncs(s.cells[a.loc], s.g.clocks[a.t], a);
      CellDropsSync(c, s, p, a.loc, CellAccess(s.cells[a.loc], s.g.clocks[a.t], a).cell);
    } else {
      SingleThreadedSteps(s, a);
      ThreadSlots(c, s, p, a.t);
      SingleThreadedSets(c, s, p, a.t, p.threads[a.t], a.loc, {});
      assert p.threads[a.t := p.threads[a.t]] == p.threads;
    }
  }

  /** An atomic operation on thread `t`: new thread clocks, a new cell, and one tick. */
  lemma FinishesAtomic(c: Context, s: D.State, p: E.Sets, t: nat, loc: nat, r: OpResult, ts: E.ThreadSets, m: set<nat>)
    requires Inv(c, s, p) && c.lag == None && t < |p.threads| && r.ok
    requires Good(c, s.g.multiThreaded, E.OfThread(t), r.clocks.clock, ts.past)
    requires Storable(c, s.g.multiThreaded, r.clocks.fenceAcquire, ts.fenceAcquire)
    requires Storable(c, s.g.multiThreaded, r.clocks.fenceRelease, ts.fenceRelease)
    requires Storable(c.(lag := Some(t)), s.g.multiThreaded, SyncVector(r.cell), m)
    ensures Inv(Ticked(c.(lag := Some(t)), t), D.FinishAtomic(s, t, loc, r).state,
      p.(threads := p.threads[t := ts], sync := p.sync[loc := m]))
  {
    PutThreadInv(c, s, p, t, r.clocks, ts);
    var s1, p1 := PutThread(s, t, r.clocks), p.(threads := p.threads[t := ts]);
    SetLag(c, s1, p1, t);
    PutCellInv(c.(lag := Some(t)), s1, p1, loc, r.cell, m);
    var s2, p2 := s1.(cells := s1.cells[loc := r.cell]), p1.(sync := p1.sync[loc := m]);
    TickInv(c.(lag := Some(t)), s2, p2, t);
    assert Tick(s2, t) == D.FinishAtomic(s, t, loc, r).state;
  }

  lemma LagStorable(c: Context, multi: bool, t: nat, k: VClock, m: set<nat>)
    requires ValidContext(c) && c.lag == None && Storable(c, multi, k, m)
    ensures Storable(c.(lag := Some(t)), multi, k, m)
  {
    forall u | 0 <= u < |c.own| ensures Foreign(c.(lag := Some(t)), multi, k, u) {
      assert Foreign(c, multi, k, u);
    }
  }

  /** What thread `t` may publish while it lags: its own clock, or its last release fence. */
  lemma PublishedStorable(c: Context, multi: bool, t: nat, tc: ThreadClocks, ts: E.ThreadSets, release: bool)
    requires ValidContext(c) && c.lag == None
    requires Good(c, multi, E.OfThread(t), tc.clock, ts.past)
    requires Storable(c, multi, tc.fenceRelease, ts.fenceRelease)
    ensures Storable(c.(lag := Some(t)), multi, PublishedClock(tc, release), E.Published(ts, release))
  {
    if release {
      assert Good(c.(lag := Some(t)), multi, E.OfThread(t), tc.clock, ts.past) by {
        forall u | 0 <= u < |c.own| && u != t ensures Foreign(c.(lag := Some(t)), multi, tc.clock, u) {
          assert Foreign(c, multi, tc.clock, u);
        }
      }
      OwnStorable(c.(lag := Some(t)), multi, t, tc.clock, ts.past);
    } else {
      LagStorable(c, multi, t, tc.fenceRelease, ts.fenceRelease);
    }
  }

  lemma AcquiredGood(c: Context, multi: bool, t: nat, tc: ThreadClocks, ts: E.ThreadSets, k: VClock, m: set<nat>, acquire: bool)
    requires ValidContext(c)
    requires Good(c, multi, E.OfThread(t), tc.clock, ts.past)
    requires Storable(c, multi, tc.fenceAcquire, ts.fenceAcquire)
    requires Storable(c, multi, k, m)
    ensures var tc', ts' := AcquiredClocks(tc, k, acquire), E.Acquired(ts, m, acquire);
      && Good(c, multi, E.OfThread(t), tc'.clock, ts'.past)
      && Storable(c, multi, tc'.fenceAcquire, ts'.fenceAcquire)
  {
    if acquire {
      JoinedGood(c, multi, E.OfThread(t), tc.clock, ts.past, k, m);
    } else {
      JoinedGood(c, multi, E.OfScFence, tc.fenceAcquire, ts.fenceAcquire, k, m);
    }
  }

  /** A load, or the whole of a read-modify-write: acquire what the location held, then publish. */
  lemma AcquiresAtomically(c: Context, s: D.State, p: E.Sets, t: nat, loc: nat, acq: bool, r: OpResult, m: set<nat>)
    requires Inv(c, s, p) && c.lag == None && t < |p.threads| && loc in s.cells && loc in p.sync && r.ok
    requires |c.who| == c.done + 1 && c.start != c.done
    requires r.clocks == AcquiredClocks(s.g.clocks[t], SyncVector(s.cells[loc]), acq)
    requires Storable(c, s.g.multiThreaded, SyncVector(s.cells[loc]), p.sync[loc]) ==>
      Storable(c.(lag := Some(t)), s.g.multiThreaded, SyncVector(r.cell), m)
    ensures Settled(c.who, c.stamps, c.start, D.FinishAtomic(s, t, loc, r).state,
      p.(threads := p.threads[t := E.Acquired(p.threads[t], p.sync[loc], acq)], sync := p.sync[loc := m]))
  {
    ThreadSlots(c, s, p, t);
    assert GoodSlot(c, s, p, E.OfLocation(loc));
    var ts := E.Acquired(p.threads[t], p.sync[loc], acq);
    AcquiredGood(c, s.g.multiThreaded, t, s.g.clocks[t], p.threads[t], SyncVector(s.cells[loc]), p.sync[loc], acq);
    FinishesAtomic(c, s, p, t, loc, r, ts, m);
    Settle(Ticked(c.(lag := Some(t)), t), D.FinishAtomic(s, t, loc, r).state,
      p.(threads := p.threads[t := ts], sync := p.sync[loc := m]));
  }

  lemma Loads(c: Context, s: D.State, p: E.Sets, a: Action)
    requires Ready(c, s, p, a) && a.Load? && s.g.multiThreaded && D.Step(s, a).ok
    ensures Settled(c.who, c.stamps, c.start, D.Step(s, a).state, E.Effect(p, a))
  {
    var t, loc, acq := a.t, a.loc, Acquires(a.rord);
    var cell, m := s.cells[loc], p.sync[loc];
    var r := CellAccess(cell, s.g.clocks[t], a);
    AccessSteps(s, a);
    AccessSyncs(cell, s.g.clocks[t], a);
    if Storable(c, true, SyncVector(cell), m) {
      LagStorable(c, true, t, SyncVector(cell), m);
    }
    AcquiresAtomically(c, s, p, t, loc, acq, r, m);
    assert p.sync[loc := m] == p.sync;
  }

  /** A store publishes its thread's clock or last release fence, whatever was there before. */
  lemma PublishesAtomically(c: Context, s: D.State, p: E.Sets, t: nat, loc: nat, rel: bool, r: OpResult)
    requires Inv(c, s, p) && c.lag == None && t < |p.threads| && r.ok
    requires |c.who| == c.done + 1 && c.start != c.done
    requires r.clocks == s.g.clocks[t] && SyncVector(r.cell) == PublishedClock(s.g.clocks[t], rel)
    ensures Settled(c.who, c.stamps, c.start, D.FinishAtomic(s, t, loc, r).state,
      p.(sync := p.sync[loc := E.Published(p.threads[t], rel)]))
  {
    var ts := p.threads[t];
    var m := E.Published(ts, rel);
    ThreadSlots(c, s, p, t);
    PublishedStorable(c, s.g.multiThreaded, t, s.g.clocks[t], ts, rel);
    FinishesAtomic(c, s, p, t, loc, r, ts, m);
    assert p.threads[t := ts] == p.threads;
    Settle(Ticked(c.(lag := Some(t)), t), D.FinishAtomic(s, t, loc, r).state, p.(sync := p.sync[loc := m]));
  }

  lemma Stores(c: Context, s: D.State, p: E.Sets, a: Action)
    requires Ready(c, s, p, a) && a.Store? && s.g.multiThreaded && D.Step(s, a).ok
    ensures Settled(c.who, c.stamps, c.start, D.Step(s, a).state, E.Effect(p, a))
  {
    var r := CellAccess(s.cells[a.loc], s.g.clocks[a.t], a);
    AccessSteps(s, a);
    AccessSyncs(s.cells[a.loc], s.g.clocks[a.t], a);
    PublishesAtomically(c, s, p, a.t, a.loc, Releases(a.word), r);
  }

  /** What a read-modify-write leaves at its location may be stored while its thread lags. */
  lemma ExtendedStorable(c: Context, multi: bool, t: nat, tc: ThreadClocks, ts: E.ThreadSets, k: VClock, m: set<nat>, acq: bool, rel: bool)
    requires ValidContext(c) && c.lag == None
    requires Good(c, multi, E.OfThread(t), tc.clock, ts.past)
    requires Storable(c, multi, tc.fenceAcquire, ts.fenceAcquire)
    requires Storable(c, multi, tc.fenceRelease, ts.fenceRelease)
    requires Storable(c, multi, k, m)
    ensures var tc', ts' := AcquiredClocks(tc, k, acq), E.Acquired(ts, m, acq);
      Storable(c.(lag := Some(t)), multi, Join(k, PublishedClock(tc', rel)), m + E.Published(ts', rel))
  {
    var tc', ts' := AcquiredClocks(tc, k, acq), E.Acquired(ts, m, acq);
    AcquiredGood(c, multi, t, tc, ts, k, m, acq);
    PublishedStorable(c, multi, t, tc', ts', rel);
    LagStorable(c, multi, t, k, m);
    JoinedGood(c.(lag := Some(t)), multi, E.OfScFence, k, m, PublishedClock(tc', rel), E.Published(ts', rel));
  }

  lemma ReadsModifiesWrites(c: Context, s: D.State, p: E.Sets, a: Action)
    requires Ready(c, s, p, a) && a.Rmw? && s.g.multiThreaded && D.Step(s, a).ok
    ensures Settled(c.who, c.stamps, c.start, D.Step(s, a).state, E.Effect(p, a))
  {
    var t, loc, acq, rel := a.t, a.loc, RwAcquires(a.aord), RwReleases(a.aord);
    var cell, m := s.cells[loc], p.sync[loc];
    var r := CellAccess(cell, s.g.clocks[t], a);
    AccessSteps(s, a);
    AccessSyncs(cell, s.g.clocks[t], a);
    var ts := E.Acquired(p.threads[t], m, acq);
    if Storable(c, true, SyncVector(cell), m) {
      ThreadSlots(c, s, p, t);
      ExtendedStorable(c, true, t, s.g.clocks[t], p.threads[t], SyncVector(cell), m, acq, rel);
    }
    AcquiresAtomically(c, s, p, t, loc, acq, r, m + E.Published(ts, rel));
  }

  lemma FencesAcquiring(c: Context, s: D.State, p: E.Sets, a: Action)
    requires Ready(c, s, p, a) && a == Fence(a.t, AcquireFence) && s.g.multiThreaded
    ensures Settled(c.who, c.stamps, c.start, D.Step(s, a).state, E.Effect(p, a))
  {
    var t := a.t;
    ThreadSlots(c, s, p, t);
    AcquiresInto(c, s, p, t, s.g.clocks[t].fenceAcquire, p.threads[t].fenceAcquire);
    assert D.Step(s, a).state == s.(g := D.AcquireInto(s.g, t, s.g.clocks[t].fenceAcquire));
    assert p.(lastScFence := p.lastScFence) == p;
    Settle(c, D.Step(s, a).state, E.Effect(p, a));
  }

  /** The second half of a releasing fence: from the clock after acquiring to the published one. */
  lemma FencesFrom(c: Context, s: D.State, p: E.Sets, t: nat, k: VClock, m: set<nat>, sc: VClock, scm: set<nat>)
    requires Inv(c, s, p) && c.lag == Some(t) && t < |p.threads|
    requires |c.who| == c.done + 1 && c.start != c.done
    requires Good(c, s.g.multiThreaded, E.OfThread(t), k, m)
    requires Storable(c, s.g.multiThreaded, sc, scm)
    ensures Settled(c.who, c.stamps, c.start,
      FencedState(s, t, k, sc),
      p.(threads := p.threads[t := p.threads[t].(past := m, fenceRelease := m)], lastScFence := scm))
  {
    var tc, ts := s.g.clocks[t].(clock := k, fenceRelease := k), p.threads[t].(past := m, fenceRelease := m);
    ThreadSlots(c, s, p, t);
    OwnStorable(c, s.g.multiThreaded, t, k, m);
    PutThreadInv(c, s, p, t, tc, ts);
    var s1, p1 := PutThread(s, t, tc), p.(threads := p.threads[t := ts]);
    PutScFenceInv(c, s1, p1, sc, scm);
    var s2, p2 := s1.(g := s1.g.(lastScFence := sc)), p1.(lastScFence := scm);
    TickInv(c, s2, p2, t);
    Settle(Ticked(c, t), Tick(s2, t), p2);
  }

  /** The sets of a thread after the acquiring part of a fence, and the SC set. */
  function FencedSet(ts: E.ThreadSets, sc: set<nat>, ord: FenceOrd): (set<nat>, set<nat>) {
    var m := if ord != ReleaseFence then ts.past + ts.fenceAcquire else ts.past;
    var sc' := if ord == SeqCstFence then sc + m else sc;
    (if ord == SeqCstFence then m + sc' else m, sc')
  }

  lemma FencedGood(c: Context, s: D.State, p: E.Sets, t: nat, ord: FenceOrd)
    requires Inv(c, s, p) && c.lag == Some(t) && t < |p.threads|
    ensures var k, m := D.Fenced(s.g.clocks[t], s.g.lastScFence, ord), FencedSet(p.threads[t], p.lastScFence, ord);
      Good(c, s.g.multiThreaded, E.OfThread(t), k.0.clock, m.0) && Storable(c, s.g.multiThreaded, k.1, m.1)
  {
    var multi := s.g.multiThreaded;
    var tc, ts := s.g.clocks[t], p.threads[t];
    ThreadSlots(c, s, p, t);
    var k, m := tc.clock, ts.past;
    if ord != ReleaseFence {
      JoinedGood(c, multi, E.OfThread(t), k, m, tc.fenceAcquire, ts.fenceAcquire);
      k, m := Join(k, tc.fenceAcquire), m + ts.fenceAcquire;
    }
    if ord == SeqCstFence {
      OwnStorable(c, multi, t, k, m);
      JoinedGood(c, multi, E.OfScFence, s.g.lastScFence, p.lastScFence, k, m);
      JoinedGood(c, multi, E.OfThread(t), k, m, Join(s.g.lastScFence, k), p.lastScFence + m);
    }
  }

  function FencedState(s: D.State, t: nat, k: VClock, sc: VClock): D.State
    requires t < |s.g.clocks|
  {
    var s1 := PutThread(s, t, s.g.clocks[t].(clock := k, fenceRelease := k));
    Tick(s1.(g := s1.g.(lastScFence := sc)), t)
  }

  lemma StepFences(s: D.State, a: Action)
    requires Tidy(s.g) && D.Enabled(s, a) && a.Fence? && a.ford != AcquireFence && s.g.multiThreaded
    ensures var k := D.Fenced(s.g.clocks[a.t], s.g.lastScFence, a.ford);
      D.Step(s, a).state == FencedState(s, a.t, k.0.clock, k.1)
  {
  }

  lemma FencesReleasing(c: Context, s: D.State, p: E.Sets, a: Action)
    requires Ready(c, s, p, a) && a.Fence? && a.ford != AcquireFence && s.g.multiThreaded
    ensures Settled(c.who, c.stamps, c.start, D.Step(s, a).state, E.Effect(p, a))
  {
    var t := a.t;
    var k, m := D.Fenced(s.g.clocks[t], s.g.lastScFence, a.ford), FencedSet(p.threads[t], p.lastScFence, a.ford);
    SetLag(c, s, p, t);
    FencedGood(c.(lag := Some(t)), s, p, t, a.ford);
    FencesFrom(c.(lag := Some(t)), s, p, t, k.0.clock, m.0, k.1, m.1);
    StepFences(s, a);
  }

  /** Before the first thread creation accesses and fences touch no clock. */
  lemma SingleThreadedThread(c: Context, s: D.State, p: E.Sets, t: nat, ts: E.ThreadSets)
    requires Inv(c, s, p) && c.start == |c.who| && !s.g.multiThreaded && t < |p.threads|
    requires p.threads[t].past <= ts.past
    requires forall i :: i in ts.past || i in ts.fenceAcquire || i in ts.fenceRelease ==> i < |c.who|
    ensures Inv(c, s, p.(threads := p.threads[t := ts]))
  {
    var tc, ts0 := s.g.clocks[t], p.threads[t];
    ThreadSlots(c, s, p, t);
    SingleThreadedGood(c, false, E.OfThread(t), tc.clock, ts0.past, ts.past);
    SingleThreadedGood(c, false, E.OfScFence, tc.fenceAcquire, ts0.fenceAcquire, ts.fenceAcquire);
    SingleThreadedGood(c, false, E.OfScFence, tc.fenceRelease, ts0.fenceRelease, ts.fenceRelease);
    PutThreadInv(c, s, p, t, tc, ts);
    assert PutThread(s, t, tc) == s;
  }

  lemma SingleThreadedFence(c: Context, s: D.State, p: E.Sets, a: Action)
    requires Ready(c, s, p, a) && !s.g.multiThreaded && a.Fence?
    ensures Settled(c.who, c.stamps, c.start, D.Step(s, a).state, E.Effect(p, a))
  {
    var p' := E.Effect(p, a);
    ThreadSlots(c, s, p, a.t);
    SingleThreadedThread(c, s, p, a.t, p'.threads[a.t]);
    var p1 := p.(threads := p.threads[a.t := p'.threads[a.t]]);
    SingleThreadedGood(c, false, E.OfScFence, s.g.lastScFence, p.lastScFence, p'.lastScFence);
    PutScFenceInv(c, s, p1, s.g.lastScFence, p'.lastScFence);
    assert s.(g := s.g.(lastScFence := s.g.lastScFence)) == s && p1.(lastScFence := p'.lastScFence) == p';
    Settle(c, s, p');
  }

  lemma SingleThreadedSets(c: Context, s: D.State, p: E.Sets, t: nat, ts: E.ThreadSets, loc: nat, m: set<nat>)
    requires Inv(c, s, p) && !s.g.multiThreaded && c.start == |c.who| && loc in s.cells && loc in p.sync && t < |p.threads|
    requires c.lag == None && |c.who| == c.done + 1
    requires p.threads[t].past <= ts.past
    requires forall i :: i in ts.past || i in ts.fenceAcquire || i in ts.fenceRelease || i in m ==> i < |c.who|
    ensures Settled(c.who, c.stamps, c.start, s, p.(threads := p.threads[t := ts], sync := p.sync[loc := m]))
  {
    var cell, p1 := s.cells[loc], p.(threads := p.threads[t := ts]);
    assert GoodSlot(c, s, p, E.OfLocation(loc));
    SingleThreadedThread(c, s, p, t, ts);
    SingleThreadedGood(c, false, E.OfScFence, SyncVector(cell), p.sync[loc], m);
    CellChanges(c, s, p1, loc, cell, m);
    assert s.(cells := s.cells[loc := cell]) == s;
  }

  /** What an atomic access makes of the sets of its thread and location. */
  lemma AtomicEffect(p: E.Sets, a: Action, ts: E.ThreadSets, m: set<nat>)
    requires E.Enabled(p, a) && IsAtomic(a) && ts == E.Effect(p, a).threads[a.t] && m == E.Effect(p, a).sync[a.loc]
    ensures E.Effect(p, a) == p.(threads := p.threads[a.t := ts], sync := p.sync[a.loc := m])
    ensures p.threads[a.t].past <= ts.past
    ensures forall i :: i in ts.past || i in ts.fenceAcquire || i in ts.fenceRelease || i in m ==>
      i in p.threads[a.t].past || i in p.threads[a.t].fenceAcquire || i in p.threads[a.t].fenceRelease || i in p.sync[a.loc]
  {
  }

  lemma SingleThreadedAccess(c: Context, s: D.State, p: E.Sets, a: Action)
    requires Ready(c, s, p, a) && !s.g.multiThreaded && IsAtomic(a)
    ensures Settled(c.who, c.stamps, c.start, D.Step(s, a).state, E.Effect(p, a))
  {
    var ts, m := E.Effect(p, a).threads[a.t], E.Effect(p, a).sync[a.loc];
    SingleThreadedSteps(s, a);
    ThreadSlots(c, s, p, a.t);
    assert GoodSlot(c, s, p, E.OfLocation(a.loc));
    AtomicEffect(p, a, ts, m);
    SingleThreadedSets(c, s, p, a.t, ts, a.loc, m);
  }

  // Thread creation.

  /** The context after thread `t` has created a thread: both move to a new timestamp. */
  function Created(c: Context, t: nat): Context
    requires t < |c.own|
  {
    c.(own := c.own[t := c.own[t] + 1] + [1], done := |c.who|)
  }

  function CreatedState(s: D.State, t: nat): D.State
    requires t < |s.g.clocks|
  {
    var n, k := |s.g.clocks|, s.g.clocks[t].clock;
    s.(g := s.g.(
      multiThreaded := true,
      clocks := s.g.clocks[t := s.g.clocks[t].(clock := Increment(k, t))] + [ThreadClocks(Increment(Join([], k), n), [], [])],
      vectorInfo := s.g.vectorInfo + [n],
      threadInfo := s.g.threadInfo + [D.ThreadExtra(Some(n), None)]))
  }

  lemma StepCreates(s: D.State, p: E.Sets, a: Action)
    requires Tidy(s.g) && SameShape(s, p) && D.Enabled(s, a) && a.Create? && D.ReuseCandidate(s.g) == None
    ensures D.Step(s, a).state == CreatedState(s, a.t)
  {
    var g, t, n := s.g, a.t, |s.g.clocks|;
    assert D.Step(s, a).state.g == D.CreatedFresh(g, t, n);
    assert D.Extended(g.threadInfo, n) == g.threadInfo + [D.ThreadExtra(None, None)];
    assert D.Indexed(g.threadInfo, n, n) == g.threadInfo + [D.ThreadExtra(Some(n), None)];
    SyncCreates(g.clocks, t);
  }

  lemma SyncCreates(clocks: seq<ThreadClocks>, t: nat)
    requires t < |clocks|
    ensures D.CreationSync(clocks + [NO_CLOCKS], t, |clocks|) ==
      clocks[t := clocks[t].(clock := Increment(clocks[t].clock, t))] +
        [ThreadClocks(Increment(Join([], clocks[t].clock), |clocks|), [], [])]
  {
  }

  lemma CreatedContext(c: Context, t: nat)
    requires ValidContext(c) && t < |c.own|
    ensures ValidContext(Created(c, t))
  {
    forall i | 0 <= i < |c.who| ensures c.who[i] < |c.own| && c.stamps[i] <= Created(c, t).own[c.who[i]] {
    }
  }

  /** Clocks stored anywhere but in the creating thread stay good. */
  lemma CreatedKept(c: Context, multi: bool, t: nat, slot: E.Slot, k: VClock, m: set<nat>)
    requires ValidContext(c) && t < |c.own| && c.lag == None && ValidContext(Created(c, t))
    requires Good(c, multi, slot, k, m) && slot != E.OfThread(t) && (!multi ==> |c.own| == 1)
    ensures Good(Created(c, t), true, slot, k, m)
  {
    forall u | 0 <= u < |c.own| + 1 && slot != E.OfThread(u) ensures Foreign(Created(c, t), true, k, u) {
      assert u < |c.own| ==> Foreign(c, multi, k, u);
    }
  }

  lemma CreatorGood(c: Context, multi: bool, t: nat, k: VClock, m: set<nat>)
    requires ValidContext(c) && t < |c.own| && c.lag == None && ValidContext(Created(c, t))
    requires Good(c, multi, E.OfThread(t), k, m) && (!multi ==> |c.own| == 1)
    ensures Good(Created(c, t), true, E.OfThread(t), Increment(k, t), m)
  {
    assert forall i :: 0 <= i < |c.who| ==> c.who[i] < |c.own| && c.stamps[i] <= c.own[c.who[i]];
    forall u | 0 <= u < |c.own| + 1 && u != t ensures Foreign(Created(c, t), true, Increment(k, t), u) {
      assert u < |c.own| ==> Foreign(c, multi, k, u);
    }
  }

  lemma ChildGood(c: Context, multi: bool, t: nat, k: VClock, m: set<nat>)
    requires ValidContext(c) && t < |c.own| && c.lag == None && ValidContext(Created(c, t))
    requires Good(c, multi, E.OfThread(t), k, m) && (!multi ==> |c.own| == 1)
    ensures Good(Created(c, t), true, E.OfThread(|c.own|), Increment(Join([], k), |c.own|), m)
  {
    var n := |c.own|;
    var k' := Increment(Join([], k), n);
    assert forall i :: 0 <= i < |c.who| ==> c.who[i] < n;
    forall u | 0 <= u < n ensures Foreign(Created(c, t), true, k', u) {
      assert u != t ==> Foreign(c, multi, k, u);
    }
  }

  lemma CreatedEmpty(c: Context, multi: bool, t: nat, k: VClock, m: set<nat>)
    requires ValidContext(c) && t < |c.own| && c.lag == None && ValidContext(Created(c, t))
    requires Good(c, multi, E.OfThread(t), k, m) && (!multi ==> |c.own| == 1)
    ensures Storable(Created(c, t), true, [], {})
  {
    forall u | 0 <= u < |c.own| + 1 ensures Created(c, t).own[u] >= 1 {
      assert u < |c.own| && u != t ==> Foreign(c, multi, k, u);
    }
    EmptyGood(Created(c, t), true);
  }

  function CreatedSets(p: E.Sets, t: nat): E.Sets
    requires t < |p.threads|
  {
    p.(threads := p.threads + [E.ThreadSets(p.threads[t].past, {}, {})], termination := p.termination + [None])
  }

  lemma CreatedShape(s: D.State, p: E.Sets, t: nat)
    requires Tidy(s.g) && SameShape(s, p) && t < |p.threads|
    ensures Tidy(CreatedState(s, t).g) && SameShape(CreatedState(s, t), CreatedSets(p, t))
  {
    var s', p' := CreatedState(s, t), CreatedSets(p, t);
    var n := |p.threads|;
    assert forall u :: 0 <= u < n ==> s'.g.threadInfo[u] == s.g.threadInfo[u] && p'.termination[u] == p.termination[u];
    assert forall u :: 0 <= u < n ==> D.Terminated(s'.g, u) == D.Terminated(s.g, u);
    assert !D.Terminated(s'.g, n);
    assert forall u :: u in s.g.reuse <==> D.Terminated(s.g, u);
  }

  lemma CreatedThreads(s: D.State, t: nat)
    requires t < |s.g.clocks|
    ensures var was, now, n, k := s.g.clocks, CreatedState(s, t).g.clocks, |s.g.clocks|, s.g.clocks[t].clock;
      && |now| == n + 1 && now[t] == was[t].(clock := Increment(k, t))
      && now[n] == ThreadClocks(Increment(Join([], k), n), [], [])
      && forall u :: 0 <= u < n && u != t ==> now[u] == was[u]
  {
  }

  /** What the slots hold after a creation. */
  ghost predicate CreatedIn(s: D.State, p: E.Sets, t: nat, slot: E.Slot, k: VClock, m: set<nat>)
    requires Tidy(s.g) && SameShape(s, p) && t < |p.threads|
  {
    var n := |p.threads|;
    if slot == E.OfThread(t) then k == Increment(s.g.clocks[t].clock, t) && m == p.threads[t].past
    else if slot == E.OfThread(n) then k == Increment(Join([], s.g.clocks[t].clock), n) && m == p.threads[t].past
    else if E.HasSlot(p, slot) then k == ClockIn(s, p, slot) && m == E.SetIn(p, slot)
    else k == [] && m == {} && !slot.OfThread?
  }

  lemma CreatedOfThread(s: D.State, p: E.Sets, t: nat, slot: E.Slot)
    requires Tidy(s.g) && SameShape(s, p) && t < |p.threads| && E.HasSlot(CreatedSets(p, t), slot)
    requires Tidy(CreatedState(s, t).g) && SameShape(CreatedState(s, t), CreatedSets(p, t))
    requires slot.OfThread? || slot.OfAcquireFence? || slot.OfReleaseFence?
    ensures CreatedIn(s, p, t, slot, ClockIn(CreatedState(s, t), CreatedSets(p, t), slot), E.SetIn(CreatedSets(p, t), slot))
  {
    CreatedThreads(s, t);
  }

  lemma CreatedElsewhere(s: D.State, p: E.Sets, t: nat, slot: E.Slot)
    requires Tidy(s.g) && SameShape(s, p) && t < |p.threads| && E.HasSlot(CreatedSets(p, t), slot)
    requires Tidy(CreatedState(s, t).g) && SameShape(CreatedState(s, t), CreatedSets(p, t))
    requires !(slot.OfThread? || slot.OfAcquireFence? || slot.OfReleaseFence?)
    ensures CreatedIn(s, p, t, slot, ClockIn(CreatedState(s, t), CreatedSets(p, t), slot), E.SetIn(CreatedSets(p, t), slot))
  {
  }

  lemma CreatedClock(s: D.State, p: E.Sets, t: nat, slot: E.Slot)
    requires Tidy(s.g) && SameShape(s, p) && t < |p.threads| && E.HasSlot(CreatedSets(p, t), slot)
    requires Tidy(CreatedState(s, t).g) && SameShape(CreatedState(s, t), CreatedSets(p, t))
    ensures CreatedIn(s, p, t, slot, ClockIn(CreatedState(s, t), CreatedSets(p, t), slot), E.SetIn(CreatedSets(p, t), slot))
  {
    if slot.OfThread? || slot.OfAcquireFence? || slot.OfReleaseFence? {
      CreatedOfThread(s, p, t, slot);
    } else {
      CreatedElsewhere(s, p, t, slot);
    }
  }

  lemma CreatedSlot(c: Context, s: D.State, p: E.Sets, t: nat, slot: E.Slot)
    requires Inv(c, s, p) && c.lag == None && t < |p.threads| && ValidContext(Created(c, t))
    requires E.HasSlot(CreatedSets(p, t), slot)
    requires Tidy(CreatedState(s, t).g) && SameShape(CreatedState(s, t), CreatedSets(p, t))
    ensures Good(Created(c, t), true, slot, ClockIn(CreatedState(s, t), CreatedSets(p, t), slot), E.SetIn(CreatedSets(p, t), slot))
  {
    ThreadSlots(c, s, p, t);
    CreatedClock(s, p, t, slot);
    ChildGood(c, s.g.multiThreaded, t, s.g.clocks[t].clock, p.threads[t].past);
    CreatedEmpty(c, s.g.multiThreaded, t, s.g.clocks[t].clock, p.threads[t].past);
    if slot == E.OfThread(t) {
      CreatorGood(c, s.g.multiThreaded, t, s.g.clocks[t].clock, p.threads[t].past);
    } else if E.HasSlot(p, slot) {
      assert GoodSlot(c, s, p, slot);
      CreatedKept(c, s.g.multiThreaded, t, slot, ClockIn(s, p, slot), E.SetIn(p, slot));
    } else if !slot.OfThread? {
      StoredAnywhere(Created(c, t), slot);
    }
  }

  /** What is storable in one place is good in every place but a thread's own clock. */
  lemma StoredAnywhere(c: Context, slot: E.Slot)
    requires ValidContext(c) && Storable(c, true, [], {}) && !slot.OfThread?
    ensures Good(c, true, slot, [], {})
  {
    forall u | 0 <= u < |c.own| ensures Foreign(c, true, [], u) {
    }
  }

  lemma CreatedInv(c: Context, s: D.State, p: E.Sets, t: nat)
    requires Inv(c, s, p) && c.lag == None && t < |p.threads| && c.start <= c.done && |c.who| == c.done + 1
    ensures Inv(Created(c, t), CreatedState(s, t), CreatedSets(p, t))
  {
    CreatedContext(c, t);
    CreatedShape(s, p, t);
    forall slot | E.HasSlot(CreatedSets(p, t), slot) ensures GoodSlot(Created(c, t), CreatedState(s, t), CreatedSets(p, t), slot) {
      CreatedSlot(c, s, p, t, slot);
    }
  }

  lemma Creates(c: Context, s: D.State, p: E.Sets, a: Action)
    requires Ready(c, s, p, a) && a.Create?
    ensures Settled(c.who, c.stamps, c.start, D.Step(s, a).state, E.Effect(p, a))
  {
    NoReuse(c, s, p, a.t);
    StepCreates(s, p, a);
    CreatedInv(c, s, p, a.t);
    var c' := Created(c, a.t);
    assert c' == Context(c.who, c.stamps, c'.own, c.start, |c.who|, None);
  }

  /** The effect of an access or a fence, once its position is recorded. */
  lemma AccessSettles(c: Context, s: D.State, p: E.Sets, a: Action)
    requires Ready(c, s, p, a) && IsAccess(a) && D.Step(s, a).ok
    ensures Settled(c.who, c.stamps, c.start, D.Step(s, a).state, E.Effect(p, a))
  {
    if a.NaRead? {
      ReadsNonAtomically(c, s, p, a);
    } else if a.NaWrite? {
      WritesNonAtomically(c, s, p, a);
    } else if !s.g.multiThreaded {
      SingleThreadedAccess(c, s, p, a);
    } else {
      match a
      case Load(_, _, _, _) => Loads(c, s, p, a);
      case Store(_, _, _, _) => Stores(c, s, p, a);
      case Rmw(_, _, _, _) => ReadsModifiesWrites(c, s, p, a);
    }
  }

  lemma FenceSettles(c: Context, s: D.State, p: E.Sets, a: Action)
    requires Ready(c, s, p, a) && a.Fence?
    ensures Settled(c.who, c.stamps, c.start, D.Step(s, a).state, E.Effect(p, a))
  {
    if !s.g.multiThreaded {
      SingleThreadedFence(c, s, p, a);
    } else if a.ford == AcquireFence {
      FencesAcquiring(c, s, p, a);
    } else {
      FencesReleasing(c, s, p, a);
    }
  }

  lemma EffectSettles(c: Context, s: D.State, p: E.Sets, a: Action)
    requires Ready(c, s, p, a) && D.Step(s, a).ok
    ensures Settled(c.who, c.stamps, c.start, D.Step(s, a).state, E.Effect(p, a))
  {
    match a
    case Create(_, _) => Creates(c, s, p, a);
    case Terminate(_) => Terminates(c, s, p, a);
    case JoinThread(_, _) => Joins(c, s, p, a);
    case ReleaseClock(_, _) => ReleasesClock(c, s, p, a);
    case AcquireClock(_, _) => AcquiresClock(c, s, p, a);
    case Allocate(_, _, _) => Allocates(c, s, p, a);
    case Fence(_, _) => FenceSettles(c, s, p, a);
    case _ => AccessSettles(c, s, p, a);
  }

  /** One step of both machines keeps the invariant. */
  lemma StepSettles(c: Context, s: D.State, p: E.Sets, a: Action)
    requires Inv(c, s, p) && c.lag == None && c.done == |c.who| && E.Enabled(p, a) && D.Enabled(s, a)
    requires D.Step(s, a).ok
    ensures Settled(c.who + [a.t], c.stamps + [c.own[a.t]], NextStart(c.start, |c.who|, a), D.Step(s, a).state, E.Step(p, |c.who|, a))
  {
    Recorded(c, s, p, a);
    assert Ready(Extend(c, a), s, E.Record(p, a.t, |c.who|), a);
    EffectSettles(Extend(c, a), s, E.Record(p, a.t, |c.who|), a);
  }
}
