/** The steps of a program, as the race detector sees them. */
module Actions {

  datatype ReadOrd = RelaxedRead | AcquireRead | SeqCstRead
  datatype WriteOrd = RelaxedWrite | ReleaseWrite | SeqCstWrite
  datatype RwOrd = RelaxedRw | AcquireRw | ReleaseRw | AcqRelRw | SeqCstRw
  datatype FenceOrd = AcquireFence | ReleaseFence | AcqRelFence | SeqCstFence

  datatype NaWriteType = AllocateWrite | PlainWrite | RetagWrite | DeallocateWrite

  /** One step by thread `t`. Clocks that callers of `release_clock` keep are named by tokens;
      `child` is the id of the new thread; an allocation is `tracked` unless it is global memory. */
  datatype Action =
    | Create(t: nat, child: nat)
    | Terminate(t: nat)
    | JoinThread(t: nat, joinee: nat)
    | ReleaseClock(t: nat, token: nat)
    | AcquireClock(t: nat, token: nat)
    | Fence(t: nat, ford: FenceOrd)
    | Allocate(t: nat, loc: nat, tracked: bool)
    | NaRead(t: nat, loc: nat)
    | NaWrite(t: nat, loc: nat, wt: NaWriteType)
    | Load(t: nat, loc: nat, size: nat, rord: ReadOrd)
    | Store(t: nat, loc: nat, size: nat, word: WriteOrd)
    | Rmw(t: nat, loc: nat, size: nat, aord: RwOrd)

  type Trace = seq<Action>

  predicate Acquires(ord: ReadOrd) { ord != RelaxedRead }
  predicate Releases(ord: WriteOrd) { ord != RelaxedWrite }
  predicate RwAcquires(ord: RwOrd) { ord.AcquireRw? || ord.AcqRelRw? || ord.SeqCstRw? }
  predicate RwReleases(ord: RwOrd) { ord.ReleaseRw? || ord.AcqRelRw? || ord.SeqCstRw? }

  /** Accesses to an existing location. */
  predicate IsAccess(a: Action) { a.NaRead? || a.NaWrite? || a.Load? || a.Store? || a.Rmw? }

  predicate Modifies(a: Action) { a.Store? || a.Rmw? }
  predicate Reads(a: Action) { a.Load? || a.Rmw? }
  predicate IsAtomic(a: Action) { Modifies(a) || Reads(a) }
  predicate IsAcquire(a: Action) { (a.Load? && Acquires(a.rord)) || (a.Rmw? && RwAcquires(a.aord)) }

  /** Non-atomic writes in the race definition: allocating tracked memory is one. */
  predicate IsNaWrite(a: Action) { a.NaWrite? || (a.Allocate? && a.tracked) }

  predicate TouchesLoc(a: Action, loc: nat) {
    (IsAccess(a) || a.Allocate?) && a.loc == loc
  }
}
