/** Constant-size shadow state is as good as the whole history: the detector reports a race exactly
    when some access since allocation conflicts with the new one and is not ordered before it. */
module FastTrack {
  import opened VectorClocks
  import opened Actions
  import opened ShadowCells
  import opened RaceDefinition
  import opened CellHistory

  // Verdicts on one cell. `k` is a clock and `m` the set of positions that it covers.

  ghost predicate Sees(tr: Trace, st: seq<nat>, start: nat, k: VClock, m: set<nat>) {
    && |st| == |tr|
    && (forall i :: start < i < |tr| ==> (i in m <==> st[i] <= At(k, tr[i].t)))
    && (forall i :: 0 <= i <= start && i < |tr| ==> i in m && st[i] <= At(k, tr[i].t))
  }

  ghost predicate OwnIn(tr: Trace, t: nat, m: set<nat>) {
    forall i :: 0 <= i < |tr| && tr[i].t == t ==> i in m
  }

  /** Seeing the last non-atomic write means having seen everything before it. */
  ghost predicate CoveredByLast(tr: Trace, loc: nat, m: set<nat>) {
    var w := LastNaWrite(tr, loc);
    w in m ==> forall i :: 0 <= i < w && IsRaceAccess(tr[i]) && tr[i].loc == loc ==> i in m
  }

  ghost predicate AllSeen(tr: Trace, a: Action, m: set<nat>) {
    forall i :: 0 <= i < |tr| && Conflict(tr[i], a) ==> i in m
  }

  /** The conflicting non-atomic writes and reads, apart. */
  ghost predicate WritesSeen(tr: Trace, a: Action, m: set<nat>) {
    forall i :: 0 <= i < |tr| && Conflict(tr[i], a) && IsNaWrite(tr[i]) ==> i in m
  }

  ghost predicate ReadsSeen(tr: Trace, a: Action, m: set<nat>) {
    forall i :: 0 <= i < |tr| && Conflict(tr[i], a) && tr[i].NaRead? ==> i in m
  }

  /** Everything a verdict on location `loc` by thread `t` rests on. */
  ghost predicate Verdictable(tr: Trace, st: seq<nat>, start: nat, loc: nat, cell: Cell, t: nat, k: VClock, m: set<nat>) {
    CellInv(tr, st, start, loc, cell) && Sees(tr, st, start, k, m) && OwnIn(tr, t, m) && CoveredByLast(tr, loc, m)
  }

  ghost predicate KindSeen(tr: Trace, from: int, loc: nat, kind: Kind, m: set<nat>) {
    forall i :: 0 <= i < |tr| && from < i && OfKind(tr[i], kind, loc) ==> i in m
  }

  /** The three comparisons of a cell with a clock, in terms of positions. */
  lemma {:induction false} CellDecides(tr: Trace, st: seq<nat>, start: nat, loc: nat,
                                       cell: Cell, t: nat, k: VClock, m: set<nat>)
    requires Verdictable(tr, st, start, loc, cell, t, k, m)
    ensures WriteWasBefore(cell, k) <==> LastNaWrite(tr, loc) <= start || LastNaWrite(tr, loc) in m
    ensures Leq(cell.read, k) <==> KindSeen(tr, From(tr, start, loc), loc, NaReads, m)
    ensures Leq(ReadVector(cell), k) <==> KindSeen(tr, From(tr, start, loc), loc, AtomicReads, m)
    ensures Leq(WriteVector(cell), k) <==> KindSeen(tr, From(tr, start, loc), loc, AtomicWrites, m)
  {
    var from := From(tr, start, loc);
    EpochDecides(tr, st, start, LastNaWrite(tr, loc), cell, k, m);
    SummaryDecides(tr, st, start, from, loc, NaReads, cell.read, k, m);
    SummaryDecides(tr, st, start, from, loc, AtomicReads, ReadVector(cell), k, m);
    SummaryDecides(tr, st, start, from, loc, AtomicWrites, WriteVector(cell), k, m);
  }

  /** Once the write epoch is seen, so is every earlier access, and every non-atomic write. */
  lemma EpochCovers(tr: Trace, st: seq<nat>, start: nat, loc: nat, cell: Cell, t: nat, k: VClock, m: set<nat>)
    requires Verdictable(tr, st, start, loc, cell, t, k, m) && WriteWasBefore(cell, k)
    ensures forall i :: 0 <= i < |tr| && IsRaceAccess(tr[i]) && tr[i].loc == loc ==>
      (i <= From(tr, start, loc) || IsNaWrite(tr[i]) ==> i in m)
  {
    var w := LastNaWrite(tr, loc);
    assert w <= start || w in m by {
      EpochDecides(tr, st, start, w, cell, k, m);
    }
  }

  /** The write epoch asks for every conflicting non-atomic write. */
  lemma EpochVerdict(tr: Trace, st: seq<nat>, start: nat, cell: Cell, a: Action, k: VClock, m: set<nat>)
    requires IsAccess(a) && Verdictable(tr, st, start, a.loc, cell, a.t, k, m)
    ensures WriteWasBefore(cell, k) <==> WritesSeen(tr, a, m)
  {
    CellDecides(tr, st, start, a.loc, cell, a.t, k, m);
    if WriteWasBefore(cell, k) {
      EpochCovers(tr, st, start, a.loc, cell, a.t, k, m);
    } else {
      var w := LastNaWrite(tr, a.loc);
      assert w in m <== tr[w].t == a.t;
      assert Conflict(tr[w], a);
    }
  }

  lemma ReadVerdict(tr: Trace, st: seq<nat>, start: nat, cell: Cell, a: Action, k: VClock, m: set<nat>)
    requires a.NaRead? && Verdictable(tr, st, start, a.loc, cell, a.t, k, m)
    ensures NonAtomicRead(cell, k, a.t).ok <==> AllSeen(tr, a, m)
  {
    EpochVerdict(tr, st, start, cell, a, k, m);
    if NonAtomicRead(cell, k, a.t).ok {
      ReadPasses(tr, st, start, cell, a, k, m);
    } else if AllSeen(tr, a, m) {
      SeenWrites(tr, start, a, m);
      CellDecides(tr, st, start, a.loc, cell, a.t, k, m);
    }
  }

  lemma SeenWrites(tr: Trace, start: nat, a: Action, m: set<nat>)
    requires a.NaRead? && AllSeen(tr, a, m) && OwnIn(tr, a.t, m)
    ensures KindSeen(tr, From(tr, start, a.loc), a.loc, AtomicWrites, m)
  {
    forall i | 0 <= i < |tr| && OfKind(tr[i], AtomicWrites, a.loc) ensures i in m {
      assert tr[i].t == a.t || Conflict(tr[i], a);
    }
  }

  lemma ReadPasses(tr: Trace, st: seq<nat>, start: nat, cell: Cell, a: Action, k: VClock, m: set<nat>)
    requires a.NaRead? && Verdictable(tr, st, start, a.loc, cell, a.t, k, m) && NonAtomicRead(cell, k, a.t).ok
    ensures AllSeen(tr, a, m)
  {
    EpochCovers(tr, st, start, a.loc, cell, a.t, k, m);
    var from := From(tr, start, a.loc);
    assert KindSeen(tr, from, a.loc, AtomicWrites, m) by {
      CellDecides(tr, st, start, a.loc, cell, a.t, k, m);
      assert Leq(WriteVector(cell), k);
    }
    forall i | 0 <= i < |tr| && Conflict(tr[i], a) ensures i in m {
      assert OfKind(tr[i], AtomicWrites, a.loc) || IsNaWrite(tr[i]);
    }
  }

  lemma WriteVerdict(tr: Trace, st: seq<nat>, start: nat, cell: Cell, a: Action, k: VClock, m: set<nat>)
    requires a.NaWrite? && Verdictable(tr, st, start, a.loc, cell, a.t, k, m)
    ensures NonAtomicWrite(cell, k, a.t, a.wt).ok <==> AllSeen(tr, a, m)
  {
    CellDecides(tr, st, start, a.loc, cell, a.t, k, m);
    EpochVerdict(tr, st, start, cell, a, k, m);
    if NonAtomicWrite(cell, k, a.t, a.wt).ok {
      assert Leq(WriteVector(cell), k) && Leq(ReadVector(cell), k);
      EpochCovers(tr, st, start, a.loc, cell, a.t, k, m);
      forall i | 0 <= i < |tr| && Conflict(tr[i], a) ensures i in m {
        assert OfKind(tr[i], NaReads, a.loc) || OfKind(tr[i], AtomicReads, a.loc) || OfKind(tr[i], AtomicWrites, a.loc) || IsNaWrite(tr[i]);
      }
    }
    if AllSeen(tr, a, m) {
      forall i, kind | 0 <= i < |tr| && OfKind(tr[i], kind, a.loc) ensures i in m {
        assert tr[i].t == a.t || Conflict(tr[i], a);
      }
    }
  }

  /** An atomic access conflicts with non-atomic writes, and with non-atomic reads if it writes. */
  lemma SeenApart(tr: Trace, a: Action, m: set<nat>)
    requires IsAtomic(a)
    ensures AllSeen(tr, a, m) <==> WritesSeen(tr, a, m) && (Modifies(a) ==> ReadsSeen(tr, a, m))
  {
    forall i | 0 <= i < |tr| && Conflict(tr[i], a) ensures IsNaWrite(tr[i]) || (tr[i].NaRead? && Modifies(a)) {
    }
  }

  lemma LoadVerdict(tr: Trace, st: seq<nat>, start: nat, cell: Cell, a: Action, tc: ThreadClocks, m: set<nat>)
    requires a.Load? && Verdictable(tr, st, start, a.loc, cell, a.t, tc.clock, m)
    ensures CellAccess(cell, tc, a).ok <==> !SizeRefused(cell, tc, a) && AllSeen(tr, a, m)
  {
    AtomicTests(cell, tc, a);
    EpochVerdict(tr, st, start, cell, a, tc.clock, m);
    SeenApart(tr, a, m);
  }

  /** All conflicting non-atomic reads are seen exactly when the read vector is covered. */
  lemma ReadsVerdict(tr: Trace, st: seq<nat>, start: nat, cell: Cell, a: Action, k: VClock, m: set<nat>)
    requires Modifies(a) && Verdictable(tr, st, start, a.loc, cell, a.t, k, m) && WriteWasBefore(cell, k)
    ensures Leq(cell.read, k) <==> ReadsSeen(tr, a, m)
  {
    CellDecides(tr, st, start, a.loc, cell, a.t, k, m);
    EpochCovers(tr, st, start, a.loc, cell, a.t, k, m);
    forall i | 0 <= i < |tr| && OfKind(tr[i], NaReads, a.loc) ensures i in m || Conflict(tr[i], a) {
    }
    if Leq(cell.read, k) {
      forall i | 0 <= i < |tr| && Conflict(tr[i], a) && tr[i].NaRead? ensures i in m {
        assert OfKind(tr[i], NaReads, a.loc);
      }
    }
  }

  lemma StoreVerdict(tr: Trace, st: seq<nat>, start: nat, cell: Cell, a: Action, tc: ThreadClocks, m: set<nat>)
    requires a.Store? && Verdictable(tr, st, start, a.loc, cell, a.t, tc.clock, m)
    ensures CellAccess(cell, tc, a).ok <==> !SizeRefused(cell, tc, a) && AllSeen(tr, a, m)
  {
    AtomicTests(cell, tc, a);
    EpochVerdict(tr, st, start, cell, a, tc.clock, m);
    SeenApart(tr, a, m);
    if WriteWasBefore(cell, tc.clock) {
      ReadsVerdict(tr, st, start, cell, a, tc.clock, m);
    }
  }

  /** A read-modify-write checks writes against the clock it starts with, and reads against the clock
      after its read half acquired. */
  lemma RmwVerdict(tr: Trace, st: seq<nat>, start: nat, cell: Cell, a: Action, tc: ThreadClocks, m: set<nat>, m': set<nat>)
    requires a.Rmw?
    requires Verdictable(tr, st, start, a.loc, cell, a.t, tc.clock, m)
    requires Verdictable(tr, st, start, a.loc, cell, a.t, ClockAfter(cell, tc, a), m')
    ensures CellAccess(cell, tc, a).ok <==> !SizeRefused(cell, tc, a) && WritesSeen(tr, a, m) && ReadsSeen(tr, a, m')
  {
    var k' := ClockAfter(cell, tc, a);
    AtomicTests(cell, tc, a);
    EpochVerdict(tr, st, start, cell, a, tc.clock, m);
    if WriteWasBefore(cell, tc.clock) {
      assert WriteWasBefore(cell, k');
      ReadsVerdict(tr, st, start, cell, a, k', m');
    }
  }

  /** The size test asks about every atomic access of the history that the new one has to be ordered
      with: about writes with the one clock and about loads with the other. */
  lemma SizeVerdict(tr: Trace, st: seq<nat>, start: nat, cell: Cell, a: Action, k: VClock, m: set<nat>, k': VClock, m': set<nat>)
    requires IsAtomic(a) && m <= m' && WriteWasBefore(cell, k)
    requires Verdictable(tr, st, start, a.loc, cell, a.t, k, m)
    requires Verdictable(tr, st, start, a.loc, cell, a.t, k', m')
    ensures SizeFits(cell, a.size, k, Modifies(a), k') <==> (
      SizeIs(cell, a.size) ||
      forall i :: 0 <= i < |tr| && SizeConflict(tr[i], a) ==> if Writes(tr[i]) then i in m else i in m')
  {
    CellDecides(tr, st, start, a.loc, cell, a.t, k, m);
    CellDecides(tr, st, start, a.loc, cell, a.t, k', m');
    EpochCovers(tr, st, start, a.loc, cell, a.t, k, m);
    WritesVerdict(tr, start, a, m);
    if Leq(WriteVector(cell), k) {
      LoadsVerdict(tr, start, a, m, m');
    }
  }

  /** Writes since the last forgetting are all that a size test can miss. */
  lemma WritesVerdict(tr: Trace, start: nat, a: Action, m: set<nat>)
    requires IsAtomic(a) && OwnIn(tr, a.t, m)
    requires forall i :: 0 <= i < |tr| && IsRaceAccess(tr[i]) && tr[i].loc == a.loc && i <= From(tr, start, a.loc) ==> i in m
    ensures KindSeen(tr, From(tr, start, a.loc), a.loc, AtomicWrites, m) <==>
      forall i :: 0 <= i < |tr| && SizeConflict(tr[i], a) && Writes(tr[i]) ==> i in m
  {
    var from := From(tr, start, a.loc);
    if KindSeen(tr, from, a.loc, AtomicWrites, m) {
      forall i | 0 <= i < |tr| && SizeConflict(tr[i], a) && Writes(tr[i]) ensures i in m {
        assert OfKind(tr[i], AtomicWrites, a.loc);
      }
    } else {
      var i: nat :| i < |tr| && from < i && OfKind(tr[i], AtomicWrites, a.loc) && i !in m;
      assert SizeConflict(tr[i], a) && Writes(tr[i]);
    }
  }

  lemma LoadsVerdict(tr: Trace, start: nat, a: Action, m: set<nat>, m': set<nat>)
    requires Modifies(a) ==> m <= m' && OwnIn(tr, a.t, m')
    requires IsAtomic(a) && KindSeen(tr, From(tr, start, a.loc), a.loc, AtomicWrites, m)
    requires forall i :: 0 <= i < |tr| && IsRaceAccess(tr[i]) && tr[i].loc == a.loc && i <= From(tr, start, a.loc) ==> i in m
    ensures Modifies(a) ==> (
      KindSeen(tr, From(tr, start, a.loc), a.loc, AtomicReads, m') <==>
      forall i :: 0 <= i < |tr| && SizeConflict(tr[i], a) && !Writes(tr[i]) ==> i in m')
  {
    var from := From(tr, start, a.loc);
    if Modifies(a) {
      if KindSeen(tr, from, a.loc, AtomicReads, m') {
        forall i | 0 <= i < |tr| && SizeConflict(tr[i], a) && !Writes(tr[i]) ensures i in m' {
          assert OfKind(tr[i], AtomicReads, a.loc);
        }
      } else {
        var i: nat :| i < |tr| && from < i && OfKind(tr[i], AtomicReads, a.loc) && i !in m';
        assert !OfKind(tr[i], AtomicWrites, a.loc);
        assert SizeConflict(tr[i], a) && !Writes(tr[i]);
      }
    }
  }
}
