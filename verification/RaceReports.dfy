/** Which earlier access a failed check blames. The cascade looks for a timestamp that the active
    thread has not seen; it must find one whenever a check failed. */
module RaceReports {
  import opened Wrappers
  import opened VectorClocks
  import opened Actions
  import opened ShadowCells

  datatype AccessType = NaReadAccess | NaWriteAccess(wt: NaWriteType) | AtomicLoadAccess | AtomicStoreAccess | AtomicRmwAccess

  predicate AtomicType(a: AccessType) { a.AtomicLoadAccess? || a.AtomicStoreAccess? || a.AtomicRmwAccess? }
  predicate ReadType(a: AccessType) { a.AtomicLoadAccess? || a.NaReadAccess? }

  // Finding an index.

  datatype Search = Found(index: nat) | NotFound | BrokenClock

  function FirstAbove(l: seq<nat>, r: seq<nat>, from: nat): (i: nat)
    requires from <= |l| && from <= |r|
    ensures from <= i <= |l| && i <= |r|
    ensures forall k :: from <= k < i ==> l[k] <= r[k]
    ensures i < |l| && i < |r| ==> l[i] > r[i]
    ensures i == |l| || i == |r| || l[i] > r[i]
    decreases |l| - from
  {
    if from == |l| || from == |r| || l[from] > r[from] then from else FirstAbove(l, r, from + 1)
  }

  function FirstNonZero(l: seq<nat>, from: nat): (i: nat)
    requires from <= |l|
    ensures from <= i <= |l|
    ensures forall k :: from <= k < i ==> l[k] == 0
    ensures i < |l| ==> l[i] != 0
    decreases |l| - from
  {
    if from == |l| || l[from] != 0 then from else FirstNonZero(l, from + 1)
  }

  /** An index at which `l` exceeds `r`: the shared prefix first, then the rest of `l`, in which the
      clock representation promises a nonzero entry. */
  function FindGtIndex(l: VClock, r: VClock): Search {
    var i := FirstAbove(l, r, 0);
    if i < |l| && i < |r| then Found(i)
    else if |l| > |r| then
      var k := FirstNonZero(l, |r|);
      if k < |l| then Found(k) else BrokenClock
    else NotFound
  }

  /** The search never meets a broken clock, finds the first exceeding index, and finds none exactly
      when the clocks are ordered. */
  lemma FindGtIndexFinds(l: VClock, r: VClock)
    ensures var f := FindGtIndex(l, r);
      && !f.BrokenClock?
      && (f.NotFound? <==> Leq(l, r))
      && (f.Found? ==> f.index < |l| && At(l, f.index) > At(r, f.index))
      && (f.Found? ==> forall k: nat :: k < f.index ==> At(l, k) <= At(r, k))
  {
    var i := FirstAbove(l, r, 0);
    if |l| > |r| {
      assert l[|l| - 1] != 0;
      assert FirstNonZero(l, |r|) < |l|;
    }
  }

  // The cascade.

  datatype Report =
    | Report(own: AccessType, other: AccessType, index: nat, otherSize: Option<nat>)
    | NoRaceFound
    | NoSizeRaceFound
    | ReadReadPanic
    | DescriptionPanic

  function SizeOr(size: Option<nat>, default: nat): nat {
    if size.Some? then size.value else default
  }

  /** The blamed access, before the message is built. */
  function Blame(c: Cell, access: AccessType, size: nat, k: VClock): Report {
    var w, r, n := FindGtIndex(WriteVector(c), k), FindGtIndex(ReadVector(c), k), FindGtIndex(c.read, k);
    if !AtomicType(access) && c.atomicOps.Some? && w.Found? then Report(access, AtomicStoreAccess, w.index, None)
    else if !AtomicType(access) && !ReadType(access) && c.atomicOps.Some? && r.Found? then Report(access, AtomicLoadAccess, r.index, None)
    else if c.writeStamp > At(k, c.writeIndex) then Report(access, NaWriteAccess(c.writeType), c.writeIndex, None)
    else if !ReadType(access) && n.Found? then Report(access, NaReadAccess, n.index, None)
    else if AtomicType(access) && c.atomicOps.Some? && c.atomicOps.value.size != Some(size) then
      var otherSize := Some(SizeOr(c.atomicOps.value.size, 0));
      if w.Found? then Report(access, AtomicStoreAccess, w.index, otherSize)
      else if r.Found? then Report(access, AtomicLoadAccess, r.index, otherSize)
      else NoSizeRaceFound
    else NoRaceFound
  }

  /** The message: it refuses read-read races of one size, and describing an access of size zero
      (several sizes seen) asserts that it is a load. */
  function ReportRace(c: Cell, access: AccessType, size: nat, k: VClock): Report {
    var b := Blame(c, access, size, k);
    if !b.Report? then b
    else if b.otherSize == None && ReadType(access) && ReadType(b.other) then ReadReadPanic
    else if b.otherSize == Some(0) && b.other != AtomicLoadAccess then DescriptionPanic
    else b
  }

  /** The timestamp a report points at. */
  function BlamedStamp(c: Cell, other: AccessType, i: nat): nat {
    match other
    case NaReadAccess => At(c.read, i)
    case NaWriteAccess(_) => if i == c.writeIndex then c.writeStamp else 0
    case AtomicLoadAccess => At(ReadVector(c), i)
    case _ => At(WriteVector(c), i)
  }

  /** A report that blames an access the active thread has not seen, and with which `access` really
      conflicts: one of the two writes, and unless their sizes differ one of them is non-atomic. */
  predicate BlamesUnordered(rep: Report, c: Cell, access: AccessType, k: VClock) {
    && rep.Report?
    && BlamedStamp(c, rep.other, rep.index) > At(k, rep.index)
    && (rep.other.NaWriteAccess? ==> rep.other.wt == c.writeType)
    && !(ReadType(access) && ReadType(rep.other))
    && (rep.otherSize == None <==> !(AtomicType(access) && AtomicType(rep.other)))
  }

  /** The message assertion fails exactly here: loads of several sizes were seen, and the last
      atomic store is not ordered before the new access. */
  predicate StoreBehindMixedLoads(c: Cell, access: AccessType, k: VClock) {
    && AtomicType(access) && c.atomicOps.Some? && c.atomicOps.value.size == None
    && WriteWasBefore(c, k) && (ReadType(access) || Leq(c.read, k))
    && !Leq(WriteVector(c), k)
  }

  predicate SaneSize(c: Cell) {
    c.atomicOps.Some? ==> c.atomicOps.value.size != Some(0)
  }

  /** What every failed check leaves for the cascade: some part of the cell is not ordered. */
  predicate Reportable(c: Cell, access: AccessType, size: nat, k: VClock) {
    || !WriteWasBefore(c, k)
    || (!ReadType(access) && !Leq(c.read, k))
    || (!AtomicType(access) && !Leq(WriteVector(c), k))
    || (!AtomicType(access) && !ReadType(access) && !Leq(ReadVector(c), k))
    || (AtomicType(access) && c.atomicOps.Some? && c.atomicOps.value.size != Some(size) &&
        (!Leq(WriteVector(c), k) || (!ReadType(access) && !Leq(ReadVector(c), k))))
  }

  /** The cascade blames an unordered access in every such state, but for the message assertion. */
  lemma CascadeBlames(c: Cell, access: AccessType, size: nat, k: VClock)
    requires Reportable(c, access, size, k) && SaneSize(c)
    ensures var rep := ReportRace(c, access, size, k);
      if StoreBehindMixedLoads(c, access, k) then rep == DescriptionPanic else BlamesUnordered(rep, c, access, k)
  {
    FindGtIndexFinds(WriteVector(c), k);
    FindGtIndexFinds(ReadVector(c), k);
    FindGtIndexFinds(c.read, k);
  }

  /** `rep` names the first index at which `v` exceeds `k`. */
  predicate BlamesFirst(rep: Report, other: AccessType, otherSize: Option<nat>, v: VClock, k: VClock) {
    && rep.Report? && rep.other == other && rep.otherSize == otherSize
    && At(v, rep.index) > At(k, rep.index) && forall u: nat :: u < rep.index ==> At(v, u) <= At(k, u)
  }

  predicate OtherSizeOnRecord(c: Cell, size: nat) {
    c.atomicOps.Some? && c.atomicOps.value.size != Some(size)
  }

  /** Who is blamed when there is a choice: atomic accesses by non-atomic ones, then the last non-atomic
      write, then non-atomic reads, and an access of another size only if nothing else is unordered.
      Writes come before reads; several sizes on record are quoted as zero. */
  lemma CascadeOrder(c: Cell, access: AccessType, size: nat, k: VClock)
    ensures var rep := Blame(c, access, size, k);
      if (access.NaReadAccess? || access.NaWriteAccess?) && !Leq(WriteVector(c), k) then
        BlamesFirst(rep, AtomicStoreAccess, None, WriteVector(c), k)
      else if access.NaWriteAccess? && !Leq(ReadVector(c), k) then
        BlamesFirst(rep, AtomicLoadAccess, None, ReadVector(c), k)
      else if !WriteWasBefore(c, k) then
        rep == Report(access, NaWriteAccess(c.writeType), c.writeIndex, None)
      else if (access.NaWriteAccess? || access.AtomicStoreAccess? || access.AtomicRmwAccess?) && !Leq(c.read, k) then
        BlamesFirst(rep, NaReadAccess, None, c.read, k)
      else if (access.AtomicLoadAccess? || access.AtomicStoreAccess? || access.AtomicRmwAccess?) && OtherSizeOnRecord(c, size) then
        var quoted := if c.atomicOps.value.size == None then Some(0) else c.atomicOps.value.size;
        if !Leq(WriteVector(c), k) then BlamesFirst(rep, AtomicStoreAccess, quoted, WriteVector(c), k)
        else if !Leq(ReadVector(c), k) then BlamesFirst(rep, AtomicLoadAccess, quoted, ReadVector(c), k)
        else rep == NoSizeRaceFound
      else rep == NoRaceFound
  {
    FindGtIndexFinds(WriteVector(c), k);
    FindGtIndexFinds(ReadVector(c), k);
    FindGtIndexFinds(c.read, k);
  }

  // Every failed check is reportable, in the state it leaves behind.

  lemma ReadFails(c: Cell, k: VClock, index: nat, size: nat)
    requires !NonAtomicRead(c, k, index).ok
    ensures Reportable(NonAtomicRead(c, k, index).cell, NaReadAccess, size, k)
  {
  }

  lemma WriteFails(c: Cell, k: VClock, index: nat, wt: NaWriteType, size: nat)
    requires !NonAtomicWrite(c, k, index, wt).ok
    ensures Reportable(NonAtomicWrite(c, k, index, wt).cell, NaWriteAccess(wt), size, k)
  {
  }

  lemma LoadFails(c: Cell, tc: ThreadClocks, index: nat, size: nat, acquire: bool)
    requires !AtomicLoad(c, tc, index, size, acquire).ok && size > 0 && SaneSize(c)
    ensures var r := AtomicLoad(c, tc, index, size, acquire);
      SaneSize(r.cell) && Reportable(r.cell, AtomicLoadAccess, size, r.clocks.clock)
  {
  }

  lemma StoreFails(c: Cell, tc: ThreadClocks, index: nat, size: nat, release: bool)
    requires !AtomicStore(c, tc, index, size, release).ok && size > 0 && SaneSize(c)
    ensures var r := AtomicStore(c, tc, index, size, release);
      SaneSize(r.cell) && Reportable(r.cell, AtomicStoreAccess, size, r.clocks.clock)
  {
  }

  /** The read half may already have changed the recorded size and joined clocks. */
  lemma RmwFails(c: Cell, tc: ThreadClocks, index: nat, size: nat, acquire: bool, release: bool)
    requires !AtomicRmw(c, tc, index, size, acquire, release).ok && size > 0 && SaneSize(c)
    ensures var r := AtomicRmw(c, tc, index, size, acquire, release);
      SaneSize(r.cell) && Reportable(r.cell, AtomicRmwAccess, size, r.clocks.clock)
    ensures AtomicLoad(c, tc, index, size, acquire).ok ==>
      var r := AtomicRmw(c, tc, index, size, acquire, release);
      !StoreBehindMixedLoads(r.cell, AtomicRmwAccess, r.clocks.clock)
  {
    var h := AtomicLoad(c, tc, index, size, acquire);
    if h.ok {
      RmwHalfOrdered(c, tc, index, size, acquire);
      var r := RmwWrite(h.cell, h.clocks, index, size, release);
      assert r == AtomicRmw(c, tc, index, size, acquire, release);
      if !AtomicAccess(h.cell, h.clocks.clock, size, true).ok {
        assert r.cell == h.cell;
      } else {
        assert r.cell.atomicOps.value.size == Some(size);
      }
    } else {
      LoadFails(c, tc, index, size, acquire);
    }
  }

  /** After a read half that saw several sizes the last store is ordered. */
  lemma RmwHalfOrdered(c: Cell, tc: ThreadClocks, index: nat, size: nat, acquire: bool)
    requires AtomicLoad(c, tc, index, size, acquire).ok
    ensures var h := AtomicLoad(c, tc, index, size, acquire);
      h.cell.atomicOps.value.size != Some(size) ==> h.cell.atomicOps.value.size == None && Leq(WriteVector(h.cell), h.clocks.clock)
  {
    var h := AtomicLoad(c, tc, index, size, acquire);
    if h.cell.atomicOps.value.size != Some(size) {
      JoinIsLeastUpperBound(tc.clock, SyncVector(c), tc.clock);
      LeqPointwise(WriteVector(c), tc.clock);
      LeqPointwise(WriteVector(c), h.clocks.clock);
    }
  }

  // The two ends together.

  function TypeOf(a: Attempt): AccessType {
    match a
    case TryRead => NaReadAccess
    case TryWrite(wt) => NaWriteAccess(wt)
    case TryLoad(_, _) => AtomicLoadAccess
    case TryStore(_, _) => AtomicStoreAccess
    case TryRmw(_, _, _) => AtomicRmwAccess
  }

  function SizeOfAttempt(a: Attempt): nat {
    if a.TryRead? || a.TryWrite? then 1 else a.size
  }

  lemma FailureIsReportable(c: Cell, tc: ThreadClocks, index: nat, a: Attempt)
    requires SaneSize(c) && SizeOfAttempt(a) > 0 && !Perform(c, tc, index, a).ok
    ensures var r := Perform(c, tc, index, a);
      SaneSize(r.cell) && Reportable(r.cell, TypeOf(a), SizeOfAttempt(a), r.clocks.clock)
  {
    match a
    case TryRead => ReadFails(c, tc.clock, index, 1);
    case TryWrite(wt) => WriteFails(c, tc.clock, index, wt, 1);
    case TryLoad(size, acquire) => LoadFails(c, tc, index, size, acquire);
    case TryStore(size, release) => StoreFails(c, tc, index, size, release);
    case TryRmw(size, acquire, release) => RmwFails(c, tc, index, size, acquire, release);
  }

  /** The message assertion fails after a check if and only if the state before it said so: that
      check was a size test on a store behind mixed loads, which changes nothing. */
  lemma MessageFailsAsBefore(c: Cell, tc: ThreadClocks, index: nat, a: Attempt)
    requires SaneSize(c) && SizeOfAttempt(a) > 0 && !Perform(c, tc, index, a).ok
    ensures var r := Perform(c, tc, index, a);
      StoreBehindMixedLoads(r.cell, TypeOf(a), r.clocks.clock) <==> StoreBehindMixedLoads(c, TypeOf(a), tc.clock)
  {
    match a
    case TryRmw(size, acquire, release) =>
      if AtomicLoad(c, tc, index, size, acquire).ok {
        RmwFails(c, tc, index, size, acquire, release);
        LoadEffect(c, tc, index, size, acquire);
      }
    case _ =>
  }

  /** Whenever a check fails, whatever the cell and the clocks, the report made from the state that
      the check left behind names an access unordered with the active thread, except that one
      assertion in the message fails, exactly when an atomic store hid behind mixed-size loads
      before the access. */
  lemma FailureIsBlamed(c: Cell, tc: ThreadClocks, index: nat, a: Attempt)
    requires SaneSize(c) && SizeOfAttempt(a) > 0 && !Perform(c, tc, index, a).ok
    ensures var r := Perform(c, tc, index, a);
      var rep := ReportRace(r.cell, TypeOf(a), SizeOfAttempt(a), r.clocks.clock);
      if StoreBehindMixedLoads(c, TypeOf(a), tc.clock) then rep == DescriptionPanic
      else BlamesUnordered(rep, r.cell, TypeOf(a), r.clocks.clock)
  {
    FailureIsReportable(c, tc, index, a);
    MessageFailsAsBefore(c, tc, index, a);
    var r := Perform(c, tc, index, a);
    CascadeBlames(r.cell, TypeOf(a), SizeOfAttempt(a), r.clocks.clock);
  }
}
