/** The per-byte shadow state of the race detector and the checks it runs, as functions
    from the old state to the new one. The stateful form is in `MemoryCells`. */
module ShadowCells {
  import opened Wrappers
  import opened VectorClocks
  import opened Actions

  datatype ThreadClocks = ThreadClocks(clock: VClock, fenceAcquire: VClock, fenceRelease: VClock)

  datatype AtomicCell = AtomicCell(
    readVector: VClock, writeVector: VClock, syncVector: VClock, size: Option<nat>)

  datatype Cell = Cell(
    writeIndex: nat, writeStamp: nat, writeType: NaWriteType, read: VClock, atomicOps: Option<AtomicCell>)

  /** A cell after a check, and whether the check passed. */
  datatype CellResult = CellResult(cell: Cell, ok: bool)

  /** A cell and the acting thread's clocks after an atomic operation. */
  datatype OpResult = OpResult(cell: Cell, clocks: ThreadClocks, ok: bool)

  const NO_CLOCKS := ThreadClocks([], [], [])

  function NewCell(alloc: nat, index: nat): Cell {
    Cell(index, alloc, AllocateWrite, [], None)
  }

  function NewAtomic(size: nat): AtomicCell {
    AtomicCell([], [], [], Some(size))
  }

  predicate WriteWasBefore(c: Cell, k: VClock) {
    c.writeStamp <= At(k, c.writeIndex)
  }

  function ReadVector(c: Cell): VClock {
    if c.atomicOps.Some? then c.atomicOps.value.readVector else []
  }

  function WriteVector(c: Cell): VClock {
    if c.atomicOps.Some? then c.atomicOps.value.writeVector else []
  }

  function SyncVector(c: Cell): VClock {
    if c.atomicOps.Some? then c.atomicOps.value.syncVector else []
  }

  /** Loads or creates the atomic metadata and checks the access size against it. */
  function AtomicAccess(c: Cell, clock: VClock, size: nat, write: bool): (r: CellResult)
    ensures r.ok ==> r.cell.atomicOps.Some?
    ensures !r.ok ==> r.cell == c && c.atomicOps.Some?
    ensures ReadVector(r.cell) == ReadVector(c) && WriteVector(r.cell) == WriteVector(c)
    ensures SyncVector(r.cell) == SyncVector(c)
    ensures r.cell.(atomicOps := None) == c.(atomicOps := None)
  {
    match c.atomicOps
    case None => CellResult(c.(atomicOps := Some(NewAtomic(size))), true)
    case Some(a) =>
      if a.size == Some(size) then
        CellResult(c, true)
      else if Leq(a.readVector, clock) && Leq(a.writeVector, clock) then
        CellResult(c.(atomicOps := Some(a.(size := Some(size)))), true)
      else if !write && Leq(a.writeVector, clock) then
        CellResult(c.(atomicOps := Some(a.(size := None))), true)
      else
        CellResult(c, false)
  }

  function AtomicReadDetect(c: Cell, clock: VClock, index: nat, size: nat): (r: CellResult)
    ensures r.ok ==> r.cell.atomicOps.Some?
  {
    var r := AtomicAccess(c, clock, size, false);
    if !r.ok then r
    else
      var a := r.cell.atomicOps.value;
      var c' := r.cell.(atomicOps := Some(a.(readVector := SetAtIndex(a.readVector, clock, index))));
      CellResult(c', WriteWasBefore(c', clock))
  }

  function AtomicWriteDetect(c: Cell, clock: VClock, index: nat, size: nat): (r: CellResult)
    ensures r.ok ==> r.cell.atomicOps.Some?
  {
    var r := AtomicAccess(c, clock, size, true);
    if !r.ok then r
    else
      var a := r.cell.atomicOps.value;
      var c' := r.cell.(atomicOps := Some(a.(writeVector := SetAtIndex(a.writeVector, clock, index))));
      CellResult(c', WriteWasBefore(c', clock) && Leq(c'.read, clock))
  }

  function SetSync(c: Cell, k: VClock): Cell
    requires c.atomicOps.Some?
  {
    c.(atomicOps := Some(c.atomicOps.value.(syncVector := k)))
  }

  /** An atomic load, `acquire` or relaxed. The check comes before the clock is joined. */
  function AtomicLoad(c: Cell, tc: ThreadClocks, index: nat, size: nat, acquire: bool): (r: OpResult)
    ensures r.ok ==> r.cell.atomicOps.Some?
  {
    var r := AtomicReadDetect(c, tc.clock, index, size);
    if !r.ok then OpResult(r.cell, tc, false)
    else if acquire then OpResult(r.cell, tc.(clock := Join(tc.clock, SyncVector(r.cell))), true)
    else OpResult(r.cell, tc.(fenceAcquire := Join(tc.fenceAcquire, SyncVector(r.cell))), true)
  }

  /** A plain atomic store: it overwrites the synchronization clock. */
  function AtomicStore(c: Cell, tc: ThreadClocks, index: nat, size: nat, release: bool): OpResult {
    var r := AtomicWriteDetect(c, tc.clock, index, size);
    if !r.ok then OpResult(r.cell, tc, false)
    else OpResult(SetSync(r.cell, if release then tc.clock else tc.fenceRelease), tc, true)
  }

  /** The write half of a read-modify-write: it joins into the synchronization clock. */
  function RmwWrite(c: Cell, tc: ThreadClocks, index: nat, size: nat, release: bool): OpResult {
    var r := AtomicWriteDetect(c, tc.clock, index, size);
    if !r.ok then OpResult(r.cell, tc, false)
    else
      var k := if release then tc.clock else tc.fenceRelease;
      OpResult(SetSync(r.cell, Join(SyncVector(r.cell), k)), tc, true)
  }

  function AtomicRmw(c: Cell, tc: ThreadClocks, index: nat, size: nat, acquire: bool, release: bool): OpResult {
    var r := AtomicLoad(c, tc, index, size, acquire);
    if !r.ok then r else RmwWrite(r.cell, r.clocks, index, size, release)
  }

  function NonAtomicRead(c: Cell, clock: VClock, index: nat): (r: CellResult)
    ensures !r.ok ==> r.cell == c
  {
    if !WriteWasBefore(c, clock) then CellResult(c, false)
    else if c.atomicOps.Some? && !Leq(WriteVector(c), clock) then CellResult(c, false)
    else CellResult(c.(read := SetAtIndex(c.read, clock, index)), true)
  }

  function NonAtomicWrite(c: Cell, clock: VClock, index: nat, wt: NaWriteType): (r: CellResult)
    ensures !r.ok ==> r.cell == c
  {
    if !(WriteWasBefore(c, clock) && Leq(c.read, clock)) then CellResult(c, false)
    else if c.atomicOps.Some? && !(Leq(WriteVector(c), clock) && Leq(ReadVector(c), clock)) then CellResult(c, false)
    else CellResult(Cell(index, At(clock, index), wt, [], None), true)
  }

  /** What successful operations do to the clocks: loads acquire what was published before them,
      stores overwrite it, read-modify-writes acquire and then extend it. */
  lemma SyncEffects(c: Cell, tc: ThreadClocks, index: nat, size: nat, acquire: bool, release: bool)
    ensures var r := AtomicLoad(c, tc, index, size, acquire);
      r.ok ==> SyncVector(r.cell) == SyncVector(c) && r.clocks == AcquiredClocks(tc, SyncVector(c), acquire)
    ensures var r := AtomicStore(c, tc, index, size, release);
      r.ok ==> SyncVector(r.cell) == PublishedClock(tc, release) && r.clocks == tc
    ensures var r := AtomicRmw(c, tc, index, size, acquire, release);
      r.ok ==> r.clocks == AcquiredClocks(tc, SyncVector(c), acquire) &&
               SyncVector(r.cell) == Join(SyncVector(c), PublishedClock(r.clocks, release))
  {
  }

  // Sizes. The cell records one access size, or that loads of several sizes were seen.

  predicate SizeIs(c: Cell, size: nat) {
    c.atomicOps.Some? ==> c.atomicOps.value.size == Some(size)
  }

  /** An access of another size is let through when it is ordered after what it could clash with:
      `loads` is the clock that the loads seen so far are compared with. */
  predicate SizeFits(c: Cell, size: nat, clock: VClock, write: bool, loads: VClock) {
    SizeIs(c, size) || (Leq(WriteVector(c), clock) && (write ==> Leq(ReadVector(c), loads)))
  }

  /** The recorded size after a load: its own, or none once unordered loads of several sizes were seen. */
  function SizeAfterLoad(c: Cell, clock: VClock, size: nat): Option<nat> {
    if SizeIs(c, size) || (Leq(ReadVector(c), clock) && Leq(WriteVector(c), clock)) then Some(size) else None
  }

  lemma SizeTest(c: Cell, clock: VClock, size: nat, write: bool)
    ensures AtomicAccess(c, clock, size, write).ok <==> SizeFits(c, size, clock, write, clock)
    ensures AtomicAccess(c, clock, size, write).ok ==>
      AtomicAccess(c, clock, size, write).cell.atomicOps.value.size == if write then Some(size) else SizeAfterLoad(c, clock, size)
  {
  }

  // The cell after accepted operations: each extends the vectors of its own kind. The write half of
  // a read-modify-write uses the clock after its read half.

  function LoadedCell(c: Cell, k: VClock, index: nat, size: Option<nat>): Cell {
    c.(atomicOps := Some(AtomicCell(SetAtIndex(ReadVector(c), k, index), WriteVector(c), SyncVector(c), size)))
  }

  function StoredCell(c: Cell, k: VClock, index: nat, size: nat, sync: VClock): Cell {
    c.(atomicOps := Some(AtomicCell(ReadVector(c), SetAtIndex(WriteVector(c), k, index), sync, Some(size))))
  }

  lemma LoadEffect(c: Cell, tc: ThreadClocks, index: nat, size: nat, acquire: bool)
    ensures var r := AtomicLoad(c, tc, index, size, acquire);
      && (r.ok <==> SizeFits(c, size, tc.clock, false, tc.clock) && WriteWasBefore(c, tc.clock))
      && (r.ok ==> r.cell == LoadedCell(c, tc.clock, index, SizeAfterLoad(c, tc.clock, size)))
      && (r.ok ==> r.clocks == AcquiredClocks(tc, SyncVector(c), acquire))
  {
    SizeTest(c, tc.clock, size, false);
  }

  lemma StoreEffect(c: Cell, tc: ThreadClocks, index: nat, size: nat, release: bool)
    ensures var r := AtomicStore(c, tc, index, size, release);
      && (r.ok <==> SizeFits(c, size, tc.clock, true, tc.clock) && WriteWasBefore(c, tc.clock) && Leq(c.read, tc.clock))
      && (r.ok ==> r.cell == StoredCell(c, tc.clock, index, size, PublishedClock(tc, release)))
  {
    SizeTest(c, tc.clock, size, true);
  }

  lemma RmwEffect(c: Cell, tc: ThreadClocks, index: nat, size: nat, acquire: bool, release: bool)
    ensures var r, tc' := AtomicRmw(c, tc, index, size, acquire, release), AcquiredClocks(tc, SyncVector(c), acquire);
      && (r.ok <==> SizeFits(c, size, tc.clock, true, tc'.clock) && WriteWasBefore(c, tc.clock) && Leq(c.read, tc'.clock))
      && (r.ok ==> r.cell == StoredCell(LoadedCell(c, tc.clock, index, Some(size)), tc'.clock, index, size,
           Join(SyncVector(c), PublishedClock(tc', release))))
  {
    LoadEffect(c, tc, index, size, acquire);
    var h := AtomicLoad(c, tc, index, size, acquire);
    JoinIsLeastUpperBound(tc.clock, SyncVector(c), tc.clock);
    if h.ok {
      ReadHalfFits(c, tc.clock, index, size, h.clocks.clock);
      RmwWriteEffect(h.cell, h.clocks, index, size, release);
    }
  }

  lemma RmwWriteEffect(c: Cell, tc: ThreadClocks, index: nat, size: nat, release: bool)
    ensures var r := RmwWrite(c, tc, index, size, release);
      && (r.ok <==> SizeFits(c, size, tc.clock, true, tc.clock) && WriteWasBefore(c, tc.clock) && Leq(c.read, tc.clock))
      && (r.ok ==> r.cell == StoredCell(c, tc.clock, index, size, Join(SyncVector(c), PublishedClock(tc, release))))
  {
    SizeTest(c, tc.clock, size, true);
  }

  /** The size test of a write half, in terms of the cell before the read half. */
  lemma ReadHalfFits(c: Cell, k: VClock, index: nat, size: nat, k': VClock)
    requires SizeFits(c, size, k, false, k) && Leq(k, k')
    ensures SizeFits(LoadedCell(c, k, index, SizeAfterLoad(c, k, size)), size, k', true, k') <==> SizeFits(c, size, k, true, k')
  {
    LeqPointwise(k, k');
    LeqPointwise(WriteVector(c), k);
    LeqPointwise(WriteVector(c), k');
    LeqPointwise(ReadVector(c), k);
    LeqPointwise(ReadVector(c), k');
    LeqPointwise(SetAtIndex(ReadVector(c), k, index), k');
    assert At(ReadVector(c), index) <= At(SetAtIndex(ReadVector(c), k, index), index);
  }

  function AcquiredClocks(tc: ThreadClocks, k: VClock, acquire: bool): ThreadClocks {
    if acquire then tc.(clock := Join(tc.clock, k)) else tc.(fenceAcquire := Join(tc.fenceAcquire, k))
  }

  function PublishedClock(tc: ThreadClocks, release: bool): VClock {
    if release then tc.clock else tc.fenceRelease
  }

  // One access of any kind.

  /** An access with everything its check and its report depend on. */
  datatype Attempt =
    | TryRead
    | TryWrite(wt: NaWriteType)
    | TryLoad(size: nat, acquire: bool)
    | TryStore(size: nat, release: bool)
    | TryRmw(size: nat, acquire: bool, release: bool)

  function AttemptOf(a: Action): Attempt
    requires IsAccess(a)
  {
    match a
    case NaRead(_, _) => TryRead
    case NaWrite(_, _, wt) => TryWrite(wt)
    case Load(_, _, size, ord) => TryLoad(size, Acquires(ord))
    case Store(_, _, size, ord) => TryStore(size, Releases(ord))
    case Rmw(_, _, size, ord) => TryRmw(size, RwAcquires(ord), RwReleases(ord))
  }

  function Perform(c: Cell, tc: ThreadClocks, index: nat, a: Attempt): OpResult {
    match a
    case TryRead => var r := NonAtomicRead(c, tc.clock, index); OpResult(r.cell, tc, r.ok)
    case TryWrite(wt) => var r := NonAtomicWrite(c, tc.clock, index, wt); OpResult(r.cell, tc, r.ok)
    case TryLoad(size, acquire) => AtomicLoad(c, tc, index, size, acquire)
    case TryStore(size, release) => AtomicStore(c, tc, index, size, release)
    case TryRmw(size, acquire, release) => AtomicRmw(c, tc, index, size, acquire, release)
  }

  /** A thread's access as its cell sees it. */
  function CellAccess(c: Cell, tc: ThreadClocks, a: Action): OpResult
    requires IsAccess(a)
  {
    Perform(c, tc, a.t, AttemptOf(a))
  }

  /** The clock of an access whose own read half, if it acquires, has taken effect. */
  function ClockAfter(c: Cell, tc: ThreadClocks, a: Action): VClock {
    if IsAcquire(a) then Join(tc.clock, SyncVector(c)) else tc.clock
  }

  /** The size test of an access, in terms of its cell and clocks before it. */
  predicate SizeRefused(c: Cell, tc: ThreadClocks, a: Action) {
    IsAtomic(a) && !SizeFits(c, a.size, tc.clock, Modifies(a), if a.Rmw? then ClockAfter(c, tc, a) else tc.clock)
  }

  /** All that an atomic access is tested for. */
  lemma AtomicTests(c: Cell, tc: ThreadClocks, a: Action)
    requires IsAtomic(a)
    ensures CellAccess(c, tc, a).ok <==>
      (!SizeRefused(c, tc, a) && WriteWasBefore(c, tc.clock) && (Modifies(a) ==> Leq(c.read, ClockAfter(c, tc, a))))
  {
    match a
    case Load(t, _, size, ord) => LoadEffect(c, tc, t, size, Acquires(ord));
    case Store(t, _, size, ord) => StoreEffect(c, tc, t, size, Releases(ord));
    case Rmw(t, _, size, ord) => RmwEffect(c, tc, t, size, RwAcquires(ord), RwReleases(ord));
  }
}
