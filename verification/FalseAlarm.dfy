/** A concrete false alarm: thread 0 writes a location non-atomically and then publishes it with a
    release store; thread 1's acquire load of the same location synchronizes with that store, so it
    happens after the write, but the load is checked before it acquires. */
module FalseAlarm {
  import opened Wrappers
  import opened VectorClocks
  import opened Actions
  import opened ShadowCells
  import opened RaceDefinition
  import opened Runs
  import opened ConcreteRuns
  import opened RaceTheorems
  import D = Detector
  import E = EventSets

  const SPAWN := Create(0, 1)
  const NEW := Allocate(0, 7, true)
  const WRITE := NaWrite(0, 7, PlainWrite)
  const PUBLISH := Store(0, 7, 4, ReleaseWrite)
  const OBSERVE := Load(1, 7, 4, AcquireRead)

  const CREATOR := ThreadClocks([1], [], [])
  const CHILD := ThreadClocks([0, 1], [], [])
  const WRITTEN := Cell(0, 1, PlainWrite, [], None)
  const PUBLISHED := WRITTEN.(atomicOps := Some(AtomicCell([], [1], [1], Some(4))))

  lemma FirstClocks()
    ensures Spawned([NO_CLOCKS], 0) == [CREATOR, CHILD]
  {
    Extensional(Increment([], 0), [1]);
    Extensional(Increment(Join([], []), 1), [0, 1]);
  }

  lemma Writes()
    ensures CellAccess(NewCell(1, 0), CREATOR, WRITE) == OpResult(WRITTEN, CREATOR, true)
  {
  }

  lemma Publishes()
    ensures CellAccess(WRITTEN, CREATOR, PUBLISH) == OpResult(PUBLISHED, CREATOR, true)
  {
    var r := AtomicStore(WRITTEN, CREATOR, 0, 4, true);
    StoreEffect(WRITTEN, CREATOR, 0, 4, true);
    Extensional(WriteVector(r.cell), [1]);
  }

  lemma Allocated() returns (s: D.State)
    ensures Reached([SPAWN, NEW], s, [CREATOR, CHILD], map[7 := NewCell(1, 0)]) && s.g.multiThreaded
  {
    Begin();
    FirstClocks();
    var cells: map<nat, Cell> := map[];
    s := CreateTo([], D.INITIAL, [NO_CLOCKS], cells, [SPAWN], [CREATOR, CHILD]);
    s := AllocateNext([SPAWN], s, [CREATOR, CHILD], cells, 0, 7, true);
    assert cells[7 := NewCell(1, 0)] == map[7 := NewCell(1, 0)];
    assert [SPAWN] + [NEW] == [SPAWN, NEW];
  }

  lemma Written() returns (s: D.State)
    ensures Reached([SPAWN, NEW, WRITE], s, [CREATOR, CHILD], map[7 := WRITTEN]) && s.g.multiThreaded
  {
    Writes();
    s := Allocated();
    s := AccessTo([SPAWN, NEW], s, [CREATOR, CHILD], 7, NewCell(1, 0), WRITE, [SPAWN, NEW, WRITE], [CREATOR, CHILD], WRITTEN);
  }

  lemma Published() returns (s: D.State)
    ensures Reached([SPAWN, NEW, WRITE, PUBLISH], s, [CREATOR.(clock := Increment([1], 0)), CHILD], map[7 := PUBLISHED])
  {
    Publishes();
    s := Written();
    s := AccessTo([SPAWN, NEW, WRITE], s, [CREATOR, CHILD], 7, WRITTEN, PUBLISH, [SPAWN, NEW, WRITE, PUBLISH],
      [CREATOR.(clock := Increment([1], 0)), CHILD], PUBLISHED);
  }

  lemma SavedHere()
    ensures SavedByOwnAcquire(PUBLISHED, CHILD, OBSERVE)
  {
  }

  /** The detector reports the load although every conflicting access happens before it. */
  lemma ReportsOrderedLoad()
    ensures var tr := [SPAWN, NEW, WRITE, PUBLISH];
      E.WellFormed(tr + [OBSERVE]) && Passes(tr) && !Accepts(Run(tr), OBSERVE) && !Races(tr, OBSERVE)
  {
    var tr := [SPAWN, NEW, WRITE, PUBLISH];
    var s := Published();
    EnabledNext(tr, s, OBSERVE);
    assert tr[0].Create?;
    FalseAlarmIff(tr, OBSERVE);
    SavedHere();
  }
}
