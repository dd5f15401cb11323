/** The race definition: two accesses to one location by different threads, at least one of them
    non-atomic, at least one a write, and neither before the other. */
module RaceDefinition {
  import opened Actions
  import opened HappensBefore
  import opened SetsAreHappensBefore
  import E = EventSets

  predicate IsRaceAccess(a: Action) { IsAccess(a) || IsNaWrite(a) }
  predicate IsNonAtomic(a: Action) { a.NaRead? || IsNaWrite(a) }
  predicate Writes(a: Action) { IsNaWrite(a) || Modifies(a) }

  predicate Conflict(a: Action, b: Action) {
    && IsRaceAccess(a) && IsRaceAccess(b) && a.loc == b.loc && a.t != b.t
    && (IsNonAtomic(a) || IsNonAtomic(b)) && (Writes(a) || Writes(b))
  }

  /** Position `i` happens before action `a` performed right after trace `tr`. */
  ghost predicate HappensBeforeNext(tr: Trace, a: Action, i: nat) {
    i in Hb(tr + [a])[|tr|]
  }

  /** Position `i` is in the past of thread `t` after trace `tr`. */
  ghost predicate InPast(tr: Trace, t: nat, i: nat) {
    Fed(tr, Hb(tr), E.OfThread(t), i)
  }

  /** The order an access is checked against: its thread's past before the access itself acquires
      anything. Only the write half of a read-modify-write is checked after the read half acquired,
      and that is the half that earlier reads are compared with. */
  ghost predicate OrderedAtCheck(tr: Trace, a: Action, i: nat) {
    InPast(tr, a.t, i) || (a.Rmw? && i < |tr| && !Writes(tr[i]) && HappensBeforeNext(tr, a, i))
  }

  ghost predicate RacesAtCheck(tr: Trace, a: Action) {
    exists i: nat :: i < |tr| && Conflict(tr[i], a) && !OrderedAtCheck(tr, a, i)
  }

  /** The race of the language definition, on happens-before proper. */
  ghost predicate Races(tr: Trace, a: Action) {
    exists i: nat :: i < |tr| && Conflict(tr[i], a) && !HappensBeforeNext(tr, a, i)
  }

  ghost predicate RaceFreeAtCheck(tr: Trace) {
    forall j :: 0 <= j < |tr| ==> !RacesAtCheck(tr[..j], tr[j])
  }

  /** Two atomic accesses never race, but when their sizes differ and one of them writes, the
      detector still wants them ordered. */
  predicate SizeConflict(a: Action, b: Action) {
    IsAtomic(a) && IsAtomic(b) && a.loc == b.loc && a.t != b.t && (Modifies(a) || Modifies(b))
  }

  /** What is on record about the sizes of the atomic accesses to a location. */
  datatype SizeRecord = NoSize | OneSize(size: nat) | SeveralSizes

  ghost predicate AtomicsInPast(tr: Trace, t: nat, loc: nat) {
    forall i: nat :: i < |tr| && IsAtomic(tr[i]) && tr[i].loc == loc ==> InPast(tr, t, i)
  }

  /** The record after an atomic access: its size, but for a load of another size than the one on record
      that is not ordered after all earlier atomic accesses. */
  ghost function RecordAfter(prev: SizeRecord, a: Action, ordered: bool): SizeRecord
    requires IsAtomic(a)
  {
    if a.Load? && prev != NoSize && prev != OneSize(a.size) && !ordered then SeveralSizes else OneSize(a.size)
  }

  /** The record starts with the second thread, and anew at every non-atomic write. */
  ghost function RecordedSize(tr: Trace, loc: nat): SizeRecord {
    if tr == [] then NoSize
    else
      var pre, a := tr[..|tr| - 1], tr[|tr| - 1];
      if (a.NaWrite? || a.Allocate?) && a.loc == loc then NoSize
      else if IsAtomic(a) && a.loc == loc && exists b :: b in pre && b.Create? then
        RecordAfter(RecordedSize(pre, loc), a, AtomicsInPast(pre, a.t, loc))
      else RecordedSize(pre, loc)
  }

  ghost predicate UnorderedSizes(tr: Trace, a: Action) {
    exists i: nat :: i < |tr| && SizeConflict(tr[i], a) && !OrderedAtCheck(tr, a, i)
  }

  /** The mixed-size test: another size is on record, or several are, and an atomic access that
      matters then is not ordered at the check. */
  ghost predicate SizesClash(tr: Trace, a: Action) {
    IsAtomic(a) && RecordedSize(tr, a.loc) != NoSize && RecordedSize(tr, a.loc) != OneSize(a.size) && UnorderedSizes(tr, a)
  }
}
