/** The mutable global state of the detector, with one clock-set object per vector index. Every
    hook is tied to the function of `Detector` that the theorems are about. */
module GlobalStates {
  import opened Wrappers
  import opened VectorClocks
  import opened Actions
  import opened ShadowCells
  import opened MemoryCells
  import opened Detector
  import ClockRefinement
  import E = EventSets
  import Runs

  function Values(v: seq<ThreadClockSet>): (r: seq<ThreadClocks>)
    reads v
    ensures |r| == |v| && forall i :: 0 <= i < |v| ==> r[i] == v[i].Value()
  {
    seq(|v|, i requires 0 <= i < |v| reads v => v[i].Value())
  }

  predicate Distinct(v: seq<ThreadClockSet>) {
    forall i, j :: 0 <= i < j < |v| ==> v[i] != v[j]
  }

  /** Changing one clock set changes one entry. */
  lemma OneChanged(v: seq<ThreadClockSet>, i: nat, was: seq<ThreadClocks>)
    requires i < |v| == |was| && forall j :: 0 <= j < |v| && j != i ==> v[j].Value() == was[j]
    ensures Values(v) == was[i := v[i].Value()]
  {
  }

  predicate WellIndexed(g: Globals) {
    && |g.vectorInfo| == |g.clocks|
    && (forall t :: 0 <= t < |g.threadInfo| && g.threadInfo[t].vectorIndex.Some? ==>
          g.threadInfo[t].vectorIndex.value < |g.clocks|)
    && (forall i :: i in g.reuse ==> i < |g.clocks|)
    && (forall i :: 0 <= i < |g.vectorInfo| ==> g.vectorInfo[i] < |g.threadInfo|)
  }

  /** The global clocks that `FinishAtomic` leaves. */
  function AfterAtomic(g: Globals, t: nat, r: OpResult): Globals {
    var g' := WithClocks(g, t, r.clocks);
    if r.ok then IncrementOwn(g', t) else g'
  }

  /** What validating one atomic operation must do: the detector's step on that cell, and nothing before
      the second thread exists. */
  predicate Validated(g: Globals, g': Globals, was: Cell, now: Cell, ok: bool, a: Action)
    requires IsAccess(a)
  {
    if g.multiThreaded then
      var r := AccessStep(State(g, map[], map[a.loc := was]), a);
      ok == r.ok && g' == r.state.g && r.state.cells == map[a.loc := now]
    else ok && now == was && g' == g
  }

  lemma ValidatedAfter(g: Globals, was: Cell, a: Action, r: OpResult)
    requires IsAtomic(a) && g.multiThreaded
    requires r == Perform(was, ClocksOf(g, a.t), ThreadIndex(g, a.t), AttemptOf(a))
    ensures Validated(g, AfterAtomic(g, a.t, r), was, r.cell, r.ok, a)
  {
  }

  class GlobalState {
    var multiThreaded: bool
    var vectorClocks: seq<ThreadClockSet>
    var vectorInfo: seq<nat>
    var threadInfo: seq<ThreadExtra>
    var reuseCandidates: set<nat>
    var lastScFence: VClock

    function View(): Globals
      reads this, vectorClocks
    {
      Globals(multiThreaded, Values(vectorClocks), vectorInfo, threadInfo, reuseCandidates, lastScFence)
    }

    /** One object and one owner per vector index; only existing indices are in use. */
    predicate Valid()
      reads this, vectorClocks
    {
      Distinct(vectorClocks) && WellIndexed(View())
    }

    /** What the source's lookups of the active thread's clocks expect. */
    predicate Active(t: nat)
      reads this
    {
      t < |threadInfo| && threadInfo[t].vectorIndex.Some?
    }

    constructor ()
      ensures Valid() && View() == INITIAL.g && fresh(vectorClocks)
    {
      var main := new ThreadClockSet();
      multiThreaded, vectorClocks, vectorInfo, reuseCandidates, lastScFence := false, [main], [0], {}, [];
      threadInfo := [ThreadExtra(Some(0), None)];
    }

    /** Acquires a clock into the active thread. */
    method AcquireClock(k: VClock, t: nat)
      requires Valid() && Active(t)
      modifies vectorClocks
      ensures Valid() && View() == AcquireInto(old(View()), t, k)
    {
      var index := threadInfo[t].vectorIndex.value;
      vectorClocks[index].Acquire(k);
      OneChanged(vectorClocks, index, old(Values(vectorClocks)));
    }

    /** Hands out the active thread's clock and then moves it to a new timestamp. */
    method ReleaseClock(t: nat) returns (k: VClock)
      requires Valid() && Active(t)
      modifies vectorClocks
      ensures Valid() && View() == IncrementOwn(old(View()), t)
      ensures k == ClocksOf(old(View()), t).clock
    {
      var index := threadInfo[t].vectorIndex.value;
      k := vectorClocks[index].clock;
      vectorClocks[index].IncrementClock(index);
      OneChanged(vectorClocks, index, old(Values(vectorClocks)));
    }

    method ThreadTerminatedHook(t: nat)
      requires Valid() && Active(t)
      modifies this, vectorClocks
      ensures Valid() && vectorClocks == old(vectorClocks)
      ensures View() == ThreadTerminated(old(View()), t)
    {
      var index := threadInfo[t].vectorIndex.value;
      var k := ReleaseClock(t);
      RecordTermination(t, k, index);
    }

    /** Stores a termination clock and puts the vector index up for reuse. */
    method RecordTermination(t: nat, k: VClock, index: nat)
      requires Valid() && t < |threadInfo| && index < |vectorClocks|
      modifies this`threadInfo, this`reuseCandidates
      ensures Valid()
      ensures View() == old(View()).(
        threadInfo := old(View()).threadInfo[t := old(View()).threadInfo[t].(termination := Some(k))],
        reuse := old(View()).reuse + {index})
    {
      threadInfo := threadInfo[t := threadInfo[t].(termination := Some(k))];
      reuseCandidates := reuseCandidates + {index};
    }

    method ThreadJoinedHook(t: nat, joinee: nat)
      requires Valid() && Active(t) && Terminated(View(), joinee)
      modifies this, vectorClocks
      ensures Valid() && vectorClocks == old(vectorClocks)
      ensures View() == ThreadJoined(old(View()), t, joinee)
      ensures multiThreaded <==> old(multiThreaded) && !LastOneCaughtUp(View(), joinee)
    {
      AcquireClock(threadInfo[joinee].termination.value, t);
      ghost var acquired := View();
      SwitchOffAfter(joinee);
      SwitchesOffThen(acquired, View(), joinee);
    }

    /** Switches detection off if only one thread lives and the joined thread has seen everything. */
    method SwitchOffAfter(joinee: nat)
      requires Valid() && joinee < |threadInfo|
      modifies this`multiThreaded
      ensures Valid()
      ensures View() == if MaySwitchOff(old(View()), joinee) then old(View()).(multiThreaded := false) else old(View())
    {
      if threadInfo[joinee].vectorIndex.Some? {
        var live := LiveThreadCount();
        if live == 1 {
          var all := AllJoined(joinee);
          if all {
            multiThreaded := false;
          }
        }
      }
    }

    /** The thread manager's count of threads that have not terminated. */
    method LiveThreadCount() returns (n: nat)
      ensures n == |LiveThreads(View())|
    {
      var live := set u | 0 <= u < |threadInfo| && threadInfo[u].termination.None?;
      assert live == LiveThreads(View());
      return |live|;
    }

    /** Whether every vector index's own timestamp is covered by the joined thread's clock. */
    method AllJoined(joinee: nat) returns (all: bool)
      requires Valid() && Active(joinee) && |LiveThreads(View())| == 1
      ensures all <==> MaySwitchOff(View(), joinee)
    {
      var current := vectorClocks[threadInfo[joinee].vectorIndex.value];
      assert ClocksOf(View(), joinee) == current.Value();
      var i := 0;
      while i < |vectorClocks|
        invariant 0 <= i <= |vectorClocks|
        invariant forall k :: 0 <= k < i ==> At(View().clocks[k].clock, k) <= At(current.clock, k)
      {
        if !(At(vectorClocks[i].clock, i) <= At(current.clock, i)) {
          assert View().clocks[i] == vectorClocks[i].Value();
          return false;
        }
        i := i + 1;
      }
      return true;
    }

    /** The fence itself, before its thread moves on; true if it needs a new timestamp. */
    method ApplyFence(clocks: ThreadClockSet, ord: FenceOrd) returns (release: bool)
      modifies this`lastScFence, clocks
      ensures (clocks.Value(), lastScFence) == Fenced(old(clocks.Value()), old(lastScFence), ord)
      ensures release <==> ord != AcquireFence
    {
      if ord != ReleaseFence {
        clocks.ApplyAcquireFence();
      }
      if ord == SeqCstFence {
        lastScFence := Join(lastScFence, clocks.clock);
        clocks.clock := Join(clocks.clock, lastScFence);
      }
      if ord != AcquireFence {
        clocks.ApplyReleaseFence();
      }
      return ord != AcquireFence;
    }

    /** Moves vector index `index` to a new timestamp. */
    method Tick(index: nat)
      requires Distinct(vectorClocks) && index < |vectorClocks|
      modifies vectorClocks
      ensures View() == old(View()).(clocks := old(View()).clocks[
        index := old(View()).clocks[index].(clock := Increment(old(View()).clocks[index].clock, index))])
    {
      vectorClocks[index].IncrementClock(index);
      OneChanged(vectorClocks, index, old(Values(vectorClocks)));
    }

    method AtomicFenceHook(t: nat, ord: FenceOrd)
      requires Valid() && Active(t)
      modifies this`lastScFence, vectorClocks
      ensures Valid() && View() == AtomicFence(old(View()), t, ord)
    {
      if multiThreaded {
        ghost var g := View();
        var index := threadInfo[t].vectorIndex.value;
        var release := FenceAt(index, ord);
        assert View() == WithClocks(g, t, Fenced(ClocksOf(g, t), g.lastScFence, ord).0).(lastScFence := lastScFence);
        if release {
          Tick(index);
        }
      }
    }

    /** `ApplyFence` on vector index `index`. */
    method FenceAt(index: nat, ord: FenceOrd) returns (release: bool)
      requires Distinct(vectorClocks) && index < |vectorClocks|
      modifies this`lastScFence, vectorClocks
      ensures var f := Fenced(old(View()).clocks[index], old(lastScFence), ord);
        View() == old(View()).(clocks := old(View()).clocks[index := f.0], lastScFence := f.1)
      ensures release <==> ord != AcquireFence
    {
      release := ApplyFence(vectorClocks[index], ord);
      OneChanged(vectorClocks, index, old(Values(vectorClocks)));
    }

    /** After the operation of `a` on cell `c`, with result `r`: a successful one ends in a new timestamp. */
    method FinishSync(ok: bool, index: nat, ghost g: Globals, ghost c: Cell, ghost a: Action, ghost r: OpResult)
      requires Distinct(vectorClocks) && index < |vectorClocks| == |g.clocks| && IsAtomic(a) && g.multiThreaded
      requires index == ThreadIndex(g, a.t) && ok == r.ok && View() == WithClocks(g, a.t, r.clocks)
      requires r == Perform(c, ClocksOf(g, a.t), index, AttemptOf(a))
      modifies vectorClocks
      ensures Validated(g, View(), c, r.cell, ok, a)
    {
      if ok {
        Tick(index);
      }
      ValidatedAfter(g, c, a, r);
    }

    /** The operations on one cell, by the thread of one vector index. */
    method LoadAt(index: nat, cell: MemoryCellClocks, size: nat, ord: ReadOrd) returns (ok: bool)
      requires Distinct(vectorClocks) && index < |vectorClocks|
      modifies cell, vectorClocks
      ensures var r := Perform(old(cell.Value()), old(View()).clocks[index], index, TryLoad(size, Acquires(ord)));
        ok == r.ok && cell.Value() == r.cell && View() == old(View()).(clocks := old(View()).clocks[index := r.clocks])
    {
      if ord == AcquireRead || ord == SeqCstRead {
        ok := cell.LoadAcquire(vectorClocks[index], index, size);
      } else {
        ok := cell.LoadRelaxed(vectorClocks[index], index, size);
      }
      OneChanged(vectorClocks, index, old(Values(vectorClocks)));
    }

    /** A store changes no clock. */
    method StoreAt(index: nat, cell: MemoryCellClocks, size: nat, ord: WriteOrd) returns (ok: bool)
      requires Distinct(vectorClocks) && index < |vectorClocks|
      modifies cell, vectorClocks
      ensures var r := Perform(old(cell.Value()), old(View()).clocks[index], index, TryStore(size, Releases(ord)));
        ok == r.ok && cell.Value() == r.cell && View() == old(View()).(clocks := old(View()).clocks[index := r.clocks])
    {
      if ord == ReleaseWrite || ord == SeqCstWrite {
        ok := cell.StoreRelease(vectorClocks[index], index, size);
      } else {
        ok := cell.StoreRelaxed(vectorClocks[index], index, size);
      }
      OneChanged(vectorClocks, index, old(Values(vectorClocks)));
    }

    /** Both halves of a read-modify-write. */
    method RmwAt(index: nat, cell: MemoryCellClocks, size: nat, ord: RwOrd) returns (ok: bool)
      requires Distinct(vectorClocks) && index < |vectorClocks|
      modifies cell, vectorClocks
      ensures var r := Perform(old(cell.Value()), old(View()).clocks[index], index, TryRmw(size, RwAcquires(ord), RwReleases(ord)));
        ok == r.ok && cell.Value() == r.cell && View() == old(View()).(clocks := old(View()).clocks[index := r.clocks])
    {
      ok := cell.Rmw(vectorClocks[index], index, size, ord);
      OneChanged(vectorClocks, index, old(Values(vectorClocks)));
    }

    method ValidateAtomicLoad(t: nat, cell: MemoryCellClocks, size: nat, ord: ReadOrd) returns (ok: bool)
      requires Valid() && Active(t)
      modifies cell, vectorClocks
      ensures Valid() && Validated(old(View()), View(), old(cell.Value()), cell.Value(), ok, Load(t, 0, size, ord))
    {
      if !multiThreaded {
        return true;
      }
      ghost var g, c := View(), cell.Value();
      var index := threadInfo[t].vectorIndex.value;
      ok := LoadAt(index, cell, size, ord);
      FinishSync(ok, index, g, c, Load(t, 0, size, ord), Perform(c, ClocksOf(g, t), index, TryLoad(size, Acquires(ord))));
    }

    method ValidateAtomicStore(t: nat, cell: MemoryCellClocks, size: nat, ord: WriteOrd) returns (ok: bool)
      requires Valid() && Active(t)
      modifies cell, vectorClocks
      ensures Valid() && Validated(old(View()), View(), old(cell.Value()), cell.Value(), ok, Store(t, 0, size, ord))
    {
      if !multiThreaded {
        return true;
      }
      ghost var g, c := View(), cell.Value();
      var index := threadInfo[t].vectorIndex.value;
      ok := StoreAt(index, cell, size, ord);
      FinishSync(ok, index, g, c, Store(t, 0, size, ord), Perform(c, ClocksOf(g, t), index, TryStore(size, Releases(ord))));
    }

    method ValidateAtomicRmw(t: nat, cell: MemoryCellClocks, size: nat, ord: RwOrd) returns (ok: bool)
      requires Valid() && Active(t)
      modifies cell, vectorClocks
      ensures Valid() && Validated(old(View()), View(), old(cell.Value()), cell.Value(), ok, Rmw(t, 0, size, ord))
    {
      if !multiThreaded {
        return true;
      }
      ghost var g, c := View(), cell.Value();
      var index := threadInfo[t].vectorIndex.value;
      ok := RmwAt(index, cell, size, ord);
      FinishSync(ok, index, g, c, Rmw(t, 0, size, ord), Perform(c, ClocksOf(g, t), index, TryRmw(size, RwAcquires(ord), RwReleases(ord))));
    }

    /** Whether every vector index is a candidate itself or has caught up with `candidate`. */
    method AllCaughtUp(candidate: nat) returns (all: bool)
      requires Valid() && candidate in reuseCandidates
      ensures all <==> MayReuse(View(), candidate)
    {
      var target := At(vectorClocks[candidate].clock, candidate);
      var i := 0;
      while i < |vectorClocks|
        invariant 0 <= i <= |vectorClocks|
        invariant forall k :: 0 <= k < i ==> At(View().clocks[k].clock, candidate) >= target || k in reuseCandidates
      {
        if !(At(vectorClocks[i].clock, candidate) >= target || i in reuseCandidates) {
          assert View().clocks[i] == vectorClocks[i].Value();
          return false;
        }
        i := i + 1;
      }
      return true;
    }

    method Retake(candidate: nat)
      requires Valid()
      modifies this`reuseCandidates
      ensures Valid() && View() == old(View()).(reuse := old(View()).reuse - {candidate})
    {
      reuseCandidates := reuseCandidates - {candidate};
    }

    /** Takes some reusable vector index out of the candidates, if there is one. */
    method FindVectorIndexReuseCandidate() returns (found: Option<nat>)
      requires Valid()
      modifies this`reuseCandidates
      ensures Valid()
      ensures found.None? ==> View() == old(View()) && forall c :: !MayReuse(old(View()), c)
      ensures found.Some? ==> MayReuse(old(View()), found.value)
      ensures var g := old(View());
        found.Some? ==>
          && found.value in g.reuse && found.value < |g.clocks|
          && forall i :: 0 <= i < |g.clocks| && i !in g.reuse ==>
               At(g.clocks[i].clock, found.value) >= At(g.clocks[found.value].clock, found.value)
      ensures var g := old(View());
        found.None? ==> forall c :: c in g.reuse ==>
          exists i :: 0 <= i < |g.clocks| && i !in g.reuse && At(g.clocks[i].clock, c) < At(g.clocks[c].clock, c)
      ensures found.Some? ==> View() == old(View()).(reuse := old(View()).reuse - {found.value})
    {
      var rest := reuseCandidates;
      ghost var g := View();
      while rest != {}
        invariant rest <= reuseCandidates == old(reuseCandidates)
        invariant View() == g && forall c :: MayReuse(g, c) ==> c in rest
        decreases |rest|
      {
        var candidate :| candidate in rest;
        var all := AllCaughtUp(candidate);
        if all {
          SomeCaughtUp(g, candidate);
          Retake(candidate);
          return Some(candidate);
        }
        rest := rest - {candidate};
      }
      NoneCaughtUp(g);
      return None;
    }

    /** Joins the creator's clock into the new thread's and moves both to a new timestamp. */
    method SyncCreation(current: nat, created: nat)
      requires Distinct(vectorClocks) && current < |vectorClocks| && created < |vectorClocks| && current != created
      modifies vectorClocks
      ensures Values(vectorClocks) == CreationSync(old(Values(vectorClocks)), current, created)
    {
      vectorClocks[created].JoinWith(vectorClocks[current]);
      OneChanged(vectorClocks, created, old(Values(vectorClocks)));
      ghost var joined := Values(vectorClocks);
      vectorClocks[current].IncrementClock(current);
      OneChanged(vectorClocks, current, joined);
      ghost var ticked := Values(vectorClocks);
      vectorClocks[created].IncrementClock(created);
      OneChanged(vectorClocks, created, ticked);
    }

    /** Hands a retired vector index to the new thread; the thread that had it loses it. */
    method Reconfigure(index: nat, child: nat)
      requires Valid() && index < |vectorClocks|
      modifies this`vectorInfo, this`threadInfo, vectorClocks
      ensures View() == Reconfigured(old(View()), index, child)
      ensures |threadInfo| == old(|threadInfo|)
    {
      vectorClocks[index].IncrementClock(index);
      OneChanged(vectorClocks, index, old(Values(vectorClocks)));
      var older := vectorInfo[index];
      vectorInfo := vectorInfo[index := child];
      threadInfo := threadInfo[older := threadInfo[older].(vectorIndex := None)];
    }

    /** Records the new thread's vector index. */
    method SetIndex(child: nat, index: nat)
      requires child < |threadInfo|
      modifies this`threadInfo
      ensures View() == WithIndex(old(View()), child, index)
    {
      threadInfo := threadInfo[child := threadInfo[child].(vectorIndex := Some(index))];
    }

    /** Gives the new thread the next fresh vector index. */
    method PushInfo(child: nat) returns (created: nat)
      modifies this`vectorInfo
      ensures View() == old(View()).(vectorInfo := old(View()).vectorInfo + [child])
      ensures created == old(|View().vectorInfo|)
    {
      created := |vectorInfo|;
      vectorInfo := vectorInfo + [child];
    }

    /** Gives the new thread a retired vector index, or else the next fresh one. */
    method AssignIndex(child: nat) returns (created: nat)
      requires Valid() && child < |threadInfo|
      modifies this`vectorInfo, this`threadInfo, this`reuseCandidates, vectorClocks
      ensures Assigned(old(View()), View(), child, created)
    {
      var found := FindVectorIndexReuseCandidate();
      if found.Some? {
        created := found.value;
        Reconfigure(created, child);
      } else {
        created := PushInfo(child);
      }
      SetIndex(child, created);
    }

    /** Switches detection on and makes room for the new thread's metadata. */
    method Prepare(child: nat)
      requires Valid()
      modifies this`multiThreaded, this`threadInfo
      ensures Valid() && View() == Prepared(old(View()), child)
    {
      multiThreaded := true;
      threadInfo := Extended(threadInfo, child);
    }

    /** Makes room for a new vector index. */
    method EnsureClocks(index: nat)
      requires Distinct(vectorClocks) && index <= |vectorClocks|
      modifies this`vectorClocks
      ensures Distinct(vectorClocks) && old(vectorClocks) <= vectorClocks
      ensures forall i :: old(|vectorClocks|) <= i < |vectorClocks| ==> fresh(vectorClocks[i])
      ensures View() == Enlarged(old(View()), index)
    {
      if index == |vectorClocks| {
        var clocks := new ThreadClockSet();
        ghost var before := Values(vectorClocks);
        vectorClocks := vectorClocks + [clocks];
        assert Values(vectorClocks) == before + [NO_CLOCKS];
      }
    }

    /** Makes room for the new thread's clocks and synchronizes it with its creator. */
    method Synchronize(current: nat, created: nat)
      requires Distinct(vectorClocks) && current < |vectorClocks| && created <= |vectorClocks| && current != created
      modifies this`vectorClocks, vectorClocks
      ensures Distinct(vectorClocks) && old(vectorClocks) <= vectorClocks
      ensures forall i :: old(|vectorClocks|) <= i < |vectorClocks| ==> fresh(vectorClocks[i])
      ensures var enlarged := Enlarged(old(View()), created);
        View() == enlarged.(clocks := CreationSync(enlarged.clocks, current, created))
    {
      EnsureClocks(created);
      SyncCreation(current, created);
    }

    /** Switches detection on and gives the new thread its metadata and vector index. */
    method Enroll(t: nat, child: nat) returns (created: nat)
      requires Valid() && Active(t) && ThreadIndex(View(), t) !in reuseCandidates
      modifies this`multiThreaded, this`vectorInfo, this`threadInfo, this`reuseCandidates, vectorClocks
      ensures Assigned(Prepared(old(View()), child), View(), child, created)
      ensures Distinct(vectorClocks) && ThreadIndex(old(View()), t) < |vectorClocks|
      ensures created <= |vectorClocks| && created != ThreadIndex(old(View()), t)
    {
      ghost var g := View();
      Prepare(child);
      created := AssignIndex(child);
      IndexedBy(g, View(), t, child, created);
    }

    /** Detection is on from now on, and the new thread and its creator are synchronized. */
    method ThreadCreatedHook(t: nat, child: nat)
      requires Valid() && Active(t) && ThreadIndex(View(), t) !in reuseCandidates
      modifies this, vectorClocks
      ensures Valid() && old(vectorClocks) <= vectorClocks
      ensures forall i :: old(|vectorClocks|) <= i < |vectorClocks| ==> fresh(vectorClocks[i])
      ensures CreatedSomehow(old(View()), View(), t, child)
    {
      ghost var g := View();
      var current := threadInfo[t].vectorIndex.value;
      var created := Enroll(t, child);
      ghost var indexed := View();
      Synchronize(current, created);
      CreatedOutcome(g, indexed, View(), t, child, created, current);
    }
  }

  function Prepared(g: Globals, child: nat): Globals {
    g.(multiThreaded := true, threadInfo := Extended(g.threadInfo, child))
  }

  function Enlarged(g: Globals, index: nat): Globals {
    if index == |g.clocks| then g.(clocks := g.clocks + [NO_CLOCKS]) else g
  }

  /** Creation as the detector's step has it, for any choice among the reusable indices. */
  ghost predicate CreatedSomehow(g: Globals, end: Globals, t: nat, child: nat) {
    || ((forall c :: !MayReuse(g, c)) && end == CreatedFresh(g, t, child))
    || (exists c :: MayReuse(g, c) && end == CreatedReusing(g, t, child, c))
  }

  function Reconfigured(g: Globals, index: nat, child: nat): Globals
    requires index < |g.clocks| && index < |g.vectorInfo| && g.vectorInfo[index] < |g.threadInfo|
  {
    var older := g.vectorInfo[index];
    g.(clocks := g.clocks[index := g.clocks[index].(clock := Increment(g.clocks[index].clock, index))],
       vectorInfo := g.vectorInfo[index := child],
       threadInfo := g.threadInfo[older := g.threadInfo[older].(vectorIndex := None)])
  }

  function WithIndex(g: Globals, child: nat, index: nat): Globals
    requires child < |g.threadInfo|
  {
    g.(threadInfo := g.threadInfo[child := g.threadInfo[child].(vectorIndex := Some(index))])
  }

  /** The child has got an index: a retired one, taken from its owner, or the next fresh one. */
  ghost predicate Assigned(g: Globals, g': Globals, child: nat, created: nat) {
    && child < |g.threadInfo| && |g.vectorInfo| == |g.clocks|
    && if created < |g.vectorInfo| then
         && MayReuse(g, created) && g.vectorInfo[created] < |g.threadInfo|
         && g' == WithIndex(Reconfigured(g.(reuse := g.reuse - {created}), created, child), child, created)
       else
         && created == |g.vectorInfo| && (forall c :: !MayReuse(g, c))
         && g' == WithIndex(g.(vectorInfo := g.vectorInfo + [child]), child, created)
  }

  lemma IndexedBy(g: Globals, indexed: Globals, t: nat, child: nat, created: nat)
    requires WellIndexed(g) && Assigned(Prepared(g, child), indexed, child, created)
    requires t < |g.threadInfo| && g.threadInfo[t].vectorIndex.Some? && ThreadIndex(g, t) !in g.reuse
    ensures created <= |indexed.clocks| == |g.clocks| && created != ThreadIndex(g, t) < |g.clocks|
  {
  }

  lemma CreatedEither(g: Globals, indexed: Globals, end: Globals, t: nat, child: nat, created: nat)
    requires |g.vectorInfo| == |g.clocks| && Assigned(Prepared(g, child), indexed, child, created)
    requires var enlarged := Enlarged(indexed, created);
      end == enlarged.(clocks := CreationSync(enlarged.clocks, ThreadIndex(g, t), created))
    ensures CreatedSomehow(g, end, t, child)
  {
    assert forall c :: MayReuse(g, c) == MayReuse(Prepared(g, child), c);
    if created < |g.vectorInfo| {
      assert MayReuse(g, created) && end == CreatedReusing(g, t, child, created);
    } else {
      assert end == CreatedFresh(g, t, child);
    }
  }

  /** The tables stay in step, whatever the clocks. */
  lemma CreatedWellIndexed(g: Globals, indexed: Globals, end: Globals, child: nat, created: nat)
    requires WellIndexed(g) && Assigned(Prepared(g, child), indexed, child, created)
    requires |end.clocks| == |Enlarged(indexed, created).clocks|
    requires end.vectorInfo == indexed.vectorInfo && end.threadInfo == indexed.threadInfo && end.reuse == indexed.reuse
    ensures WellIndexed(end)
  {
    var info := Extended(g.threadInfo, child);
    assert |end.vectorInfo| == |end.clocks| && |end.threadInfo| == |info|;
    assert forall u :: 0 <= u < |info| && info[u].vectorIndex.Some? ==> info[u].vectorIndex.value < |end.clocks|;
  }

  lemma SyncKeepsLength(clocks: seq<ThreadClocks>, current: nat, created: nat)
    ensures |CreationSync(clocks, current, created)| == |clocks|
  {
  }

  lemma CreatedOutcome(g: Globals, indexed: Globals, end: Globals, t: nat, child: nat, created: nat, current: nat)
    requires WellIndexed(g) && Assigned(Prepared(g, child), indexed, child, created)
    requires current == ThreadIndex(g, t) && current < |g.clocks|
    requires var enlarged := Enlarged(indexed, created);
      end == enlarged.(clocks := CreationSync(enlarged.clocks, current, created))
    ensures CreatedSomehow(g, end, t, child) && WellIndexed(end)
  {
    assert CreatedSomehow(g, end, t, child) by {
      CreatedEither(g, indexed, end, t, child, created);
    }
    assert WellIndexed(end) by {
      SyncKeepsLength(Enlarged(indexed, created).clocks, current, created);
      CreatedWellIndexed(g, indexed, end, child, created);
    }
  }

  lemma SomeCaughtUp(g: Globals, c: nat)
    requires MayReuse(g, c)
    ensures c in g.reuse && c < |g.clocks|
    ensures forall i :: 0 <= i < |g.clocks| && i !in g.reuse ==> At(g.clocks[i].clock, c) >= At(g.clocks[c].clock, c)
  {
  }

  lemma NoneCaughtUp(g: Globals)
    requires WellIndexed(g) && forall c :: !MayReuse(g, c)
    ensures forall c :: c in g.reuse ==>
      exists i :: 0 <= i < |g.clocks| && i !in g.reuse && At(g.clocks[i].clock, c) < At(g.clocks[c].clock, c)
  {
    forall c | c in g.reuse
      ensures exists i :: 0 <= i < |g.clocks| && i !in g.reuse && At(g.clocks[i].clock, c) < At(g.clocks[c].clock, c)
    {
      assert !MayReuse(g, c);
    }
  }

  /** One thread has not terminated, and the joined thread's index has seen every other's last timestamp. */
  ghost predicate LastOneCaughtUp(g: Globals, joinee: nat) {
    && joinee < |g.threadInfo| && g.threadInfo[joinee].vectorIndex.Some?
    && g.threadInfo[joinee].vectorIndex.value < |g.clocks|
    && |set u | 0 <= u < |g.threadInfo| && g.threadInfo[u].termination.None?| == 1
    && forall i :: 0 <= i < |g.clocks| ==>
         At(g.clocks[i].clock, i) <= At(g.clocks[g.threadInfo[joinee].vectorIndex.value].clock, i)
  }

  lemma SwitchesOffThen(g: Globals, g': Globals, joinee: nat)
    requires WellIndexed(g)
    requires g' == if MaySwitchOff(g, joinee) then g.(multiThreaded := false) else g
    ensures g'.multiThreaded <==> g.multiThreaded && !LastOneCaughtUp(g', joinee)
  {
    assert LiveThreads(g) == set u | 0 <= u < |g.threadInfo| && g.threadInfo[u].termination.None?;
  }

  /** What reuse would do to the tables, should it ever happen: the retired index goes to the new thread,
      and its last owner keeps its termination clock but no index. */
  lemma ReuseHandsOver(g: Globals, t: nat, child: nat, c: nat)
    requires WellIndexed(g) && MayReuse(g, c) && t < |g.threadInfo| == child
    ensures var g', older := CreatedReusing(g, t, child, c), g.vectorInfo[c];
      && g'.multiThreaded && g'.lastScFence == g.lastScFence
      && g'.reuse == g.reuse - {c} && g'.vectorInfo == g.vectorInfo[c := child]
      && |g'.threadInfo| == child + 1 && g'.threadInfo[child] == ThreadExtra(Some(c), None)
      && forall u :: 0 <= u < child ==>
           g'.threadInfo[u] == if u == older then g.threadInfo[u].(vectorIndex := None) else g.threadInfo[u]
  {
  }

  /** And to the clocks: the retired one moves to a new timestamp, is joined with the creator's, and both
      move on; the others stay. */
  lemma ReuseSynchronizes(g: Globals, t: nat, child: nat, c: nat, i: nat)
    requires WellIndexed(g) && MayReuse(g, c) && t < |g.threadInfo| && i == ThreadIndex(g, t) < |g.clocks| && i != c
    ensures var clocks := CreatedReusing(g, t, child, c).clocks;
      && |clocks| == |g.clocks|
      && clocks[i] == g.clocks[i].(clock := Increment(g.clocks[i].clock, i))
      && clocks[c] == g.clocks[c].(clock := Increment(Join(Increment(g.clocks[c].clock, c), g.clocks[i].clock), c))
      && forall j :: 0 <= j < |clocks| && j != i && j != c ==> clocks[j] == g.clocks[j]
  {
  }

  lemma TidyIsWellIndexed(g: Globals)
    requires ClockRefinement.Tidy(g)
    ensures WellIndexed(g)
    ensures forall t :: 0 <= t < |g.threadInfo| && !Terminated(g, t) ==>
      g.threadInfo[t].vectorIndex.Some? && ThreadIndex(g, t) !in g.reuse
  {
  }

  /** The lookups and index pairs that the hooks expect are there in every reachable state. */
  lemma {:induction false} ReachableIsWellIndexed(tr: seq<Action>)
    requires E.WellFormed(tr) && Runs.Passes(tr)
    ensures var g := Runs.Run(tr).g;
      && WellIndexed(g)
      && forall t :: 0 <= t < |g.threadInfo| && !Terminated(g, t) ==>
           g.threadInfo[t].vectorIndex.Some? && ThreadIndex(g, t) !in g.reuse
  {
    Runs.RunSettles(tr);
    Runs.SettledSlot(Runs.Who(tr), Runs.Stamps(tr), ClockRefinement.FirstCreate(tr), Runs.Run(tr), E.Run(tr), E.OfScFence);
    TidyIsWellIndexed(Runs.Run(tr).g);
  }
}
