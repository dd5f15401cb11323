/** Following the detector along a given trace, step by step. */
module ConcreteRuns {
  import opened Wrappers
  import opened VectorClocks
  import opened Actions
  import opened ShadowCells
  import opened ClockRefinement
  import opened ClockSteps
  import opened Runs
  import D = Detector
  import E = EventSets

  /** A run without a report that ends in a state with these clocks and cells, all threads alive. */
  ghost predicate Reached(tr: Trace, s: D.State, clocks: seq<ThreadClocks>, cells: map<nat, Cell>) {
    && E.WellFormed(tr) && Passes(tr) && Run(tr) == s
    && Tidy(s.g) && s.g.reuse == {} && s.g.clocks == clocks && s.cells == cells
  }

  lemma {:induction false} WellFormedNext(tr: Trace, a: Action)
    requires E.WellFormed(tr) && E.Enabled(E.Run(tr), a)
    ensures E.WellFormed(tr + [a])
  {
    var all := tr + [a];
    assert all[..|tr|] == tr;
    forall n | 0 <= n < |all| ensures E.Enabled(E.Run(all[..n]), all[n]) {
      if n < |tr| {
        assert all[..n] == tr[..n];
      }
    }
  }

  lemma {:induction false} Shapes(tr: Trace)
    requires E.WellFormed(tr) && Passes(tr)
    ensures Tidy(Run(tr).g) && SameShape(Run(tr), E.Run(tr))
  {
    RunSettles(tr);
    SettledSlot(Who(tr), Stamps(tr), FirstCreate(tr), Run(tr), E.Run(tr), E.OfScFence);
  }

  lemma {:induction false} Next(tr: Trace, s: D.State, a: Action, s': D.State)
    requires E.WellFormed(tr) && Passes(tr) && Run(tr) == s && D.Enabled(s, a) && D.Step(s, a) == D.StepResult(s', true)
    ensures E.WellFormed(tr + [a]) && Passes(tr + [a]) && Run(tr + [a]) == s'
  {
    EnabledNext(tr, s, a);
    RunExtend(tr, a);
  }

  lemma {:induction false} EnabledNext(tr: Trace, s: D.State, a: Action)
    requires E.WellFormed(tr) && Passes(tr) && Run(tr) == s && D.Enabled(s, a)
    ensures E.WellFormed(tr + [a])
  {
    Shapes(tr);
    SameEnabled(s, E.Run(tr), a);
    WellFormedNext(tr, a);
  }

  lemma Begin()
    ensures Reached([], D.INITIAL, [NO_CLOCKS], map[])
  {
  }

  /** The clocks after thread `t` has created the next thread. */
  function Spawned(clocks: seq<ThreadClocks>, t: nat): seq<ThreadClocks>
    requires t < |clocks|
  {
    var k := clocks[t].clock;
    clocks[t := clocks[t].(clock := Increment(k, t))] + [ThreadClocks(Increment(Join([], k), |clocks|), [], [])]
  }

  lemma {:induction false} CreateNext(tr: Trace, s: D.State, clocks: seq<ThreadClocks>, cells: map<nat, Cell>, t: nat)
    returns (s': D.State)
    requires Reached(tr, s, clocks, cells) && t < |clocks|
    ensures Reached(tr + [Create(t, |clocks|)], s', Spawned(clocks, t), cells) && s'.g.multiThreaded
  {
    var a := Create(t, |clocks|);
    Shapes(tr);
    assert D.ReuseCandidate(s.g) == None;
    assert D.Enabled(s, a);
    s' := CreatedState(s, t);
    StepCreates(s, E.Run(tr), a);
    Next(tr, s, a, s');
    Shapes(tr + [a]);
  }

  lemma {:induction false} AllocateNext(
      tr: Trace, s: D.State, clocks: seq<ThreadClocks>, cells: map<nat, Cell>, t: nat, loc: nat, tracked: bool)
    returns (s': D.State)
    requires Reached(tr, s, clocks, cells) && t < |clocks| && loc !in cells
    ensures Reached(tr + [Allocate(t, loc, tracked)], s', clocks,
      cells[loc := if tracked then NewCell(At(clocks[t].clock, t), t) else NewCell(0, 0)])
    ensures s'.g == s.g
  {
    s' := D.Step(s, Allocate(t, loc, tracked)).state;
    Next(tr, s, Allocate(t, loc, tracked), s');
  }

  /** The clocks of a thread after its accepted access. */
  function Moved(t: nat, tc: ThreadClocks, r: OpResult, atomic: bool): ThreadClocks {
    if atomic then r.clocks.(clock := Increment(r.clocks.clock, t)) else tc
  }

  function Accessed(s: D.State, a: Action, r: OpResult): D.State
    requires IsAccess(a) && a.t < |s.g.clocks|
  {
    s.(g := s.g.(clocks := s.g.clocks[a.t := Moved(a.t, s.g.clocks[a.t], r, IsAtomic(a))]), cells := s.cells[a.loc := r.cell])
  }

  lemma FinishesAtomically(g: D.Globals, t: nat, tc: ThreadClocks)
    requires Tidy(g) && t < |g.clocks|
    ensures D.IncrementOwn(D.WithClocks(g, t, tc), t) ==
      g.(clocks := g.clocks[t := tc.(clock := Increment(tc.clock, t))])
  {
    var g' := g.(clocks := g.clocks[t := tc]);
    assert D.ThreadIndex(g, t) == t && D.ThreadIndex(g', t) == t;
    assert D.WithClocks(g, t, tc) == g' && D.ClocksOf(g', t) == tc;
    assert g'.clocks[t := tc.(clock := Increment(tc.clock, t))] == g.clocks[t := tc.(clock := Increment(tc.clock, t))];
  }

  lemma AccessedState(s: D.State, a: Action, r: OpResult)
    requires Tidy(s.g) && s.g.multiThreaded && IsAccess(a) && D.Enabled(s, a)
    requires r == CellAccess(s.cells[a.loc], s.g.clocks[a.t], a) && r.ok
    ensures D.Step(s, a) == D.StepResult(Accessed(s, a, r), true)
  {
    AccessSteps(s, a);
    if IsAtomic(a) {
      FinishesAtomically(s.g, a.t, r.clocks);
    } else {
      assert s.g.clocks[a.t := s.g.clocks[a.t]] == s.g.clocks;
    }
  }

  lemma {:induction false} AccessNext(
      tr: Trace, s: D.State, clocks: seq<ThreadClocks>, cells: map<nat, Cell>, a: Action, r: OpResult) returns (s': D.State)
    requires Reached(tr, s, clocks, cells) && s.g.multiThreaded
    requires IsAccess(a) && a.t < |clocks| && a.loc in cells && r == CellAccess(cells[a.loc], clocks[a.t], a) && r.ok
    ensures Reached(tr + [a], s', clocks[a.t := Moved(a.t, clocks[a.t], r, IsAtomic(a))], cells[a.loc := r.cell])
    ensures s'.g.multiThreaded
  {
    s' := Accessed(s, a, r);
    AccessedState(s, a, r);
    Next(tr, s, a, s');
    Shapes(tr + [a]);
  }

  /** The same steps where one location is in use, with the outcome spelled out. */
  lemma {:induction false} CreateTo(
      tr: Trace, s: D.State, clocks: seq<ThreadClocks>, cells: map<nat, Cell>, tr': Trace, clocks': seq<ThreadClocks>)
    returns (s': D.State)
    requires Reached(tr, s, clocks, cells) && clocks != []
    requires tr' == tr + [Create(0, |clocks|)] && clocks' == Spawned(clocks, 0)
    ensures Reached(tr', s', clocks', cells) && s'.g.multiThreaded
  {
    s' := CreateNext(tr, s, clocks, cells, 0);
  }

  lemma {:induction false} AccessTo(
      tr: Trace, s: D.State, clocks: seq<ThreadClocks>, loc: nat, cell: Cell, a: Action,
      tr': Trace, clocks': seq<ThreadClocks>, cell': Cell) returns (s': D.State)
    requires Reached(tr, s, clocks, map[loc := cell]) && s.g.multiThreaded && tr' == tr + [a]
    requires IsAccess(a) && a.t < |clocks| && a.loc == loc
    requires CellAccess(cell, clocks[a.t], a) == OpResult(cell', clocks[a.t], true)
    requires clocks' == clocks[a.t := Moved(a.t, clocks[a.t], OpResult(cell', clocks[a.t], true), IsAtomic(a))]
    ensures Reached(tr', s', clocks', map[loc := cell']) && s'.g.multiThreaded
  {
    var r := OpResult(cell', clocks[a.t], true);
    var cells, cells' := map[loc := cell], map[loc := cell'];
    assert cells[loc] == cell && cells[loc := cell'] == cells';
    s' := AccessNext(tr, s, clocks, cells, a, r);
  }
}
