/** A run in which building the message of a report fails: two threads that have seen a store load
    the location with different sizes, unordered with each other, so the cell no longer knows a size;
    then a thread that has not seen the store loads the location, too. */
module MixedSizes {
  import opened Wrappers
  import opened VectorClocks
  import opened Actions
  import opened ShadowCells
  import opened RaceDefinition
  import opened Runs
  import opened ConcreteRuns
  import opened Verdicts
  import opened RaceReports
  import opened ReportsInRuns
  import D = Detector
  import E = EventSets

  const LATE := Create(0, 1)
  const GLOBAL := Allocate(0, 7, false)
  const WRITE := Store(0, 7, 4, RelaxedWrite)
  const READER := Create(0, 2)
  const READ_FOUR := Load(0, 7, 4, RelaxedRead)
  const READ_TWO := Load(2, 7, 2, RelaxedRead)
  const READ_LATE := Load(1, 7, 4, RelaxedRead)

  function Clock(k: VClock): ThreadClocks { ThreadClocks(k, [], []) }

  function CellWith(loads: VClock, size: Option<nat>): Cell {
    NewCell(0, 0).(atomicOps := Some(AtomicCell(loads, [1], [], size)))
  }

  lemma Ticks()
    ensures Spawned([NO_CLOCKS], 0) == [Clock([1]), Clock([0, 1])]
    ensures Increment([1], 0) == [2] && Increment([3], 0) == [4] && Increment([2, 0, 1], 2) == [2, 0, 2]
    ensures Spawned([Clock([2]), Clock([0, 1])], 0) == [Clock([3]), Clock([0, 1]), Clock([2, 0, 1])]
  {
    Extensional(Increment([], 0), [1]);
    Extensional(Increment(Join([], []), 1), [0, 1]);
    Extensional(Increment([1], 0), [2]);
    Extensional(Increment([2], 0), [3]);
    Extensional(Increment([3], 0), [4]);
    Extensional(Increment(Join([], [2]), 2), [2, 0, 1]);
    Extensional(Increment([2, 0, 1], 2), [2, 0, 2]);
  }

  lemma Writes()
    ensures CellAccess(NewCell(0, 0), Clock([1]), WRITE) == OpResult(CellWith([], Some(4)), Clock([1]), true)
  {
    StoreEffect(NewCell(0, 0), Clock([1]), 0, 4, false);
    Extensional(SetAtIndex([], [1], 0), [1]);
  }

  lemma ReadsFour()
    ensures CellAccess(CellWith([], Some(4)), Clock([3]), READ_FOUR) == OpResult(CellWith([3], Some(4)), Clock([3]), true)
  {
    LoadEffect(CellWith([], Some(4)), Clock([3]), 0, 4, false);
    Extensional(SetAtIndex([], [3], 0), [3]);
    Extensional(Join([], []), []);
  }

  lemma ReadsTwo()
    ensures CellAccess(CellWith([3], Some(4)), Clock([2, 0, 1]), READ_TWO) ==
      OpResult(CellWith([3, 0, 1], None), Clock([2, 0, 1]), true)
  {
    LoadEffect(CellWith([3], Some(4)), Clock([2, 0, 1]), 2, 2, false);
    assert [3][0] > [2, 0, 1][0];
    Extensional(SetAtIndex([3], [2, 0, 1], 2), [3, 0, 1]);
    Extensional(Join([], []), []);
  }

  lemma ReadsLate()
    ensures StoreBehindMixedLoads(CellWith([3, 0, 1], None), AtomicLoadAccess, [0, 1])
    ensures !CellAccess(CellWith([3, 0, 1], None), Clock([0, 1]), READ_LATE).ok
  {
    assert [1][0] > [0, 1][0];
    LoadEffect(CellWith([3, 0, 1], None), Clock([0, 1]), 1, 4, false);
  }

  lemma Allocated() returns (s: D.State)
    ensures Reached([LATE, GLOBAL], s, [Clock([1]), Clock([0, 1])], map[7 := NewCell(0, 0)]) && s.g.multiThreaded
  {
    Begin();
    Ticks();
    var cells: map<nat, Cell> := map[];
    s := CreateTo([], D.INITIAL, [NO_CLOCKS], cells, [LATE], [Clock([1]), Clock([0, 1])]);
    s := AllocateNext([LATE], s, [Clock([1]), Clock([0, 1])], cells, 0, 7, false);
    assert cells[7 := NewCell(0, 0)] == map[7 := NewCell(0, 0)];
    assert [LATE] + [GLOBAL] == [LATE, GLOBAL];
  }

  lemma ToReader() returns (s: D.State)
    ensures Reached([LATE, GLOBAL, WRITE, READER], s, [Clock([3]), Clock([0, 1]), Clock([2, 0, 1])], map[7 := CellWith([], Some(4))])
    ensures s.g.multiThreaded
  {
    Ticks();
    Writes();
    s := Allocated();
    s := AccessTo([LATE, GLOBAL], s, [Clock([1]), Clock([0, 1])], 7, NewCell(0, 0), WRITE,
      [LATE, GLOBAL, WRITE], [Clock([2]), Clock([0, 1])], CellWith([], Some(4)));
    s := CreateTo([LATE, GLOBAL, WRITE], s, [Clock([2]), Clock([0, 1])], map[7 := CellWith([], Some(4))],
      [LATE, GLOBAL, WRITE, READER], [Clock([3]), Clock([0, 1]), Clock([2, 0, 1])]);
  }

  lemma ToFour() returns (s: D.State)
    ensures Reached([LATE, GLOBAL, WRITE, READER, READ_FOUR], s,
      [Clock([4]), Clock([0, 1]), Clock([2, 0, 1])], map[7 := CellWith([3], Some(4))])
    ensures s.g.multiThreaded
  {
    s := ToReader();
    Ticks();
    ReadsFour();
    s := AccessTo([LATE, GLOBAL, WRITE, READER], s, [Clock([3]), Clock([0, 1]), Clock([2, 0, 1])],
      7, CellWith([], Some(4)), READ_FOUR,
      [LATE, GLOBAL, WRITE, READER, READ_FOUR], [Clock([4]), Clock([0, 1]), Clock([2, 0, 1])], CellWith([3], Some(4)));
  }

  lemma ToMixedLoads() returns (s: D.State)
    ensures Reached([LATE, GLOBAL, WRITE, READER, READ_FOUR, READ_TWO], s,
      [Clock([4]), Clock([0, 1]), Clock([2, 0, 2])], map[7 := CellWith([3, 0, 1], None)])
    ensures s.g.multiThreaded
  {
    s := ToFour();
    Ticks();
    ReadsTwo();
    s := AccessTo([LATE, GLOBAL, WRITE, READER, READ_FOUR], s, [Clock([4]), Clock([0, 1]), Clock([2, 0, 1])],
      7, CellWith([3], Some(4)), READ_TWO,
      [LATE, GLOBAL, WRITE, READER, READ_FOUR, READ_TWO], [Clock([4]), Clock([0, 1]), Clock([2, 0, 2])], CellWith([3, 0, 1], None));
  }

  /** The message assertion does fail in a run of the detector. */
  lemma MixedLoadsBreakTheMessage()
    ensures var tr := [LATE, GLOBAL, WRITE, READER, READ_FOUR, READ_TWO];
      && E.WellFormed(tr + [READ_LATE]) && Passes(tr) && !Accepts(Run(tr), READ_LATE)
      && 7 in Run(tr).cells && 1 < |Run(tr).g.clocks|
      && ReportOn(Run(tr).cells[7], Run(tr).g.clocks[1], READ_LATE) == DescriptionPanic
  {
    var tr := [LATE, GLOBAL, WRITE, READER, READ_FOUR, READ_TWO];
    var s := ToMixedLoads();
    ReadsLate();
    EnabledNext(tr, s, READ_LATE);
    AcceptsIsCellAccess(s, READ_LATE);
    FailureIsBlamed(CellWith([3, 0, 1], None), Clock([0, 1]), 1, TryLoad(4, false));
  }

  lemma AtomicsDoNotRace(tr: Trace, a: Action)
    requires IsAtomic(a) && forall i :: 0 <= i < |tr| && IsRaceAccess(tr[i]) ==> IsAtomic(tr[i])
    ensures !Races(tr, a)
  {
  }

  lemma NoRace(tr: Trace)
    requires tr == [LATE, GLOBAL, WRITE, READER, READ_FOUR, READ_TWO]
    ensures !Races(tr, READ_LATE)
  {
    forall i | 0 <= i < |tr| && IsRaceAccess(tr[i]) ensures IsAtomic(tr[i]) {
    }
    AtomicsDoNotRace(tr, READ_LATE);
  }

  /** The same load races with nothing: everything before it is atomic, too. */
  lemma RefusedForSizeAlone()
    ensures var tr := [LATE, GLOBAL, WRITE, READER, READ_FOUR, READ_TWO];
      E.WellFormed(tr + [READ_LATE]) && Passes(tr) && !Accepts(Run(tr), READ_LATE) && !Races(tr, READ_LATE)
  {
    MixedLoadsBreakTheMessage();
    NoRace([LATE, GLOBAL, WRITE, READER, READ_FOUR, READ_TWO]);
  }
}
