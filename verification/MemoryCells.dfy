/** The mutable form of the clocks: threads' clock sets and shadow cells, updated in place. Every
    method is tied to the function of `ShadowCells` that the theorems are about. */
module MemoryCells {
  import opened Wrappers
  import opened VectorClocks
  import opened Actions
  import opened ShadowCells

  class ThreadClockSet {
    var clock: VClock
    var fenceAcquire: VClock
    var fenceRelease: VClock

    function Value(): ThreadClocks
      reads this
    {
      ThreadClocks(clock, fenceAcquire, fenceRelease)
    }

    constructor ()
      ensures Value() == NO_CLOCKS
    {
      clock, fenceAcquire, fenceRelease := [], [], [];
    }

    method ApplyReleaseFence()
      modifies this
      ensures Value() == old(Value()).(fenceRelease := old(clock))
    {
      fenceRelease := clock;
    }

    method ApplyAcquireFence()
      modifies this
      ensures Value() == old(Value()).(clock := Join(old(clock), old(fenceAcquire)))
    {
      clock := Join(clock, fenceAcquire);
    }

    method IncrementClock(index: nat)
      modifies this
      ensures Value() == old(Value()).(clock := Increment(old(clock), index))
    {
      clock := Increment(clock, index);
    }

    method Acquire(k: VClock)
      modifies this
      ensures Value() == old(Value()).(clock := Join(old(clock), k))
    {
      clock := Join(clock, k);
    }

    method JoinWith(other: ThreadClockSet)
      modifies this
      ensures Value() == old(Value()).(clock := Join(old(clock), old(other.clock)))
    {
      clock := Join(clock, other.clock);
    }
  }

  class MemoryCellClocks {
    var writeIndex: nat
    var writeStamp: nat
    var writeType: NaWriteType
    var read: VClock
    var atomicOps: Option<AtomicCell>

    function Value(): Cell
      reads this
    {
      Cell(writeIndex, writeStamp, writeType, read, atomicOps)
    }

    constructor (alloc: nat, allocIndex: nat)
      ensures Value() == NewCell(alloc, allocIndex)
    {
      writeIndex, writeStamp, writeType, read, atomicOps := allocIndex, alloc, AllocateWrite, [], None;
    }

    /** Loads or creates the atomic metadata, adjusting or refusing the access size. */
    method CheckedAtomic(clocks: ThreadClockSet, size: nat, write: bool) returns (ok: bool)
      modifies this
      ensures CellResult(Value(), ok) == AtomicAccess(old(Value()), clocks.clock, size, write)
    {
      if atomicOps == None {
        atomicOps := Some(NewAtomic(size));
        return true;
      }
      var atomic := atomicOps.value;
      if atomic.size == Some(size) {
        return true;
      } else if Leq(atomic.readVector, clocks.clock) && Leq(atomic.writeVector, clocks.clock) {
        atomicOps := Some(atomic.(size := Some(size)));
        return true;
      } else if !write && Leq(atomic.writeVector, clocks.clock) {
        atomicOps := Some(atomic.(size := None));
        return true;
      } else {
        return false;
      }
    }

    method ReadDetect(clocks: ThreadClockSet, index: nat, size: nat) returns (ok: bool)
      modifies this
      ensures CellResult(Value(), ok) == AtomicReadDetect(old(Value()), clocks.clock, index, size)
    {
      ok := CheckedAtomic(clocks, size, false);
      if ok {
        var atomic := atomicOps.value;
        atomicOps := Some(atomic.(readVector := SetAtIndex(atomic.readVector, clocks.clock, index)));
        ok := writeStamp <= At(clocks.clock, writeIndex);
      }
    }

    method WriteDetect(clocks: ThreadClockSet, index: nat, size: nat) returns (ok: bool)
      modifies this
      ensures CellResult(Value(), ok) == AtomicWriteDetect(old(Value()), clocks.clock, index, size)
    {
      ok := CheckedAtomic(clocks, size, true);
      if ok {
        var atomic := atomicOps.value;
        atomicOps := Some(atomic.(writeVector := SetAtIndex(atomic.writeVector, clocks.clock, index)));
        ok := writeStamp <= At(clocks.clock, writeIndex) && Leq(read, clocks.clock);
      }
    }

    method LoadAcquire(clocks: ThreadClockSet, index: nat, size: nat) returns (ok: bool)
      modifies this, clocks
      ensures OpResult(Value(), clocks.Value(), ok) == AtomicLoad(old(Value()), old(clocks.Value()), index, size, true)
    {
      ok := ReadDetect(clocks, index, size);
      if ok && atomicOps.Some? {
        clocks.clock := Join(clocks.clock, atomicOps.value.syncVector);
      }
    }

    method LoadRelaxed(clocks: ThreadClockSet, index: nat, size: nat) returns (ok: bool)
      modifies this, clocks
      ensures OpResult(Value(), clocks.Value(), ok) == AtomicLoad(old(Value()), old(clocks.Value()), index, size, false)
    {
      ok := ReadDetect(clocks, index, size);
      if ok && atomicOps.Some? {
        clocks.fenceAcquire := Join(clocks.fenceAcquire, atomicOps.value.syncVector);
      }
    }

    method StoreRelease(clocks: ThreadClockSet, index: nat, size: nat) returns (ok: bool)
      modifies this
      ensures OpResult(Value(), clocks.Value(), ok) == AtomicStore(old(Value()), clocks.Value(), index, size, true)
    {
      ok := WriteDetect(clocks, index, size);
      if ok {
        atomicOps := Some(atomicOps.value.(syncVector := clocks.clock));
      }
    }

    method StoreRelaxed(clocks: ThreadClockSet, index: nat, size: nat) returns (ok: bool)
      modifies this
      ensures OpResult(Value(), clocks.Value(), ok) == AtomicStore(old(Value()), clocks.Value(), index, size, false)
    {
      ok := WriteDetect(clocks, index, size);
      if ok {
        atomicOps := Some(atomicOps.value.(syncVector := clocks.fenceRelease));
      }
    }

    method RmwRelease(clocks: ThreadClockSet, index: nat, size: nat) returns (ok: bool)
      modifies this
      ensures OpResult(Value(), clocks.Value(), ok) == RmwWrite(old(Value()), clocks.Value(), index, size, true)
    {
      ok := WriteDetect(clocks, index, size);
      if ok {
        var atomic := atomicOps.value;
        atomicOps := Some(atomic.(syncVector := Join(atomic.syncVector, clocks.clock)));
      }
    }

    method RmwRelaxed(clocks: ThreadClockSet, index: nat, size: nat) returns (ok: bool)
      modifies this
      ensures OpResult(Value(), clocks.Value(), ok) == RmwWrite(old(Value()), clocks.Value(), index, size, false)
    {
      ok := WriteDetect(clocks, index, size);
      if ok {
        var atomic := atomicOps.value;
        atomicOps := Some(atomic.(syncVector := Join(atomic.syncVector, clocks.fenceRelease)));
      }
    }

    /** A read-modify-write: a load half and then a store half. */
    method Rmw(clocks: ThreadClockSet, index: nat, size: nat, ord: RwOrd) returns (ok: bool)
      modifies this, clocks
      ensures OpResult(Value(), clocks.Value(), ok) ==
        AtomicRmw(old(Value()), old(clocks.Value()), index, size, RwAcquires(ord), RwReleases(ord))
    {
      if ord.AcquireRw? || ord.AcqRelRw? || ord.SeqCstRw? {
        ok := LoadAcquire(clocks, index, size);
      } else {
        ok := LoadRelaxed(clocks, index, size);
      }
      if ok {
        if ord.ReleaseRw? || ord.AcqRelRw? || ord.SeqCstRw? {
          ok := RmwRelease(clocks, index, size);
        } else {
          ok := RmwRelaxed(clocks, index, size);
        }
      }
    }

    method NonAtomicReadDetect(clocks: ThreadClockSet, index: nat) returns (ok: bool)
      modifies this
      ensures CellResult(Value(), ok) == NonAtomicRead(old(Value()), clocks.clock, index)
    {
      if !(writeStamp <= At(clocks.clock, writeIndex)) {
        return false;
      }
      if atomicOps.Some? && !Leq(atomicOps.value.writeVector, clocks.clock) {
        return false;
      }
      read := SetAtIndex(read, clocks.clock, index);
      return true;
    }

    method NonAtomicWriteDetect(clocks: ThreadClockSet, index: nat, wt: NaWriteType) returns (ok: bool)
      modifies this
      ensures CellResult(Value(), ok) == NonAtomicWrite(old(Value()), clocks.clock, index, wt)
    {
      if !(writeStamp <= At(clocks.clock, writeIndex) && Leq(read, clocks.clock)) {
        return false;
      }
      if atomicOps.Some? &&
         !(Leq(atomicOps.value.writeVector, clocks.clock) && Leq(atomicOps.value.readVector, clocks.clock))
      {
        return false;
      }
      writeIndex, writeStamp := index, At(clocks.clock, index);
      writeType := wt;
      read := [];
      atomicOps := None;
      return true;
    }
  }
}
