/** Every set of the event-set machine is a happens-before past: what the machine reaches by joining
    and overwriting is what the declared edges of the trace reach. */
module SetsAreHappensBefore {
  import opened Actions
  import opened HappensBefore
  import opened EventSets

  predicate Concerns(a: Action, t: nat) {
    a.t == t || (a.Create? && a.child == t)
  }

  /** `x` is before what a read of `loc` just before position `q` would synchronize with. */
  ghost predicate SyncReaches(tr: Trace, hb: seq<set<nat>>, q: nat, loc: nat, x: nat) {
    exists p: nat, i: nat :: SyncSource(tr, hb, q, loc, x, p, i)
  }

  ghost predicate SyncSource(tr: Trace, hb: seq<set<nat>>, q: nat, loc: nat, x: nat, p: nat, i: nat) {
    SequenceReaches(tr, p, q, loc) && ReleaseVia(tr, i, p) && i < |hb| && x in hb[i]
  }

  ghost predicate PendingReaches(tr: Trace, hb: seq<set<nat>>, t: nat, x: nat, q: nat) {
    q < |tr| && tr[q].t == t && Reads(tr[q]) && !AcquireReads(tr[q]) && SyncReaches(tr, hb, q, tr[q].loc, x)
  }

  /** Which actions feed a slot that is the union of the pasts of some positions. */
  predicate Feeds(a: Action, s: Slot) {
    match s
    case OfThread(t) => Concerns(a, t)
    case OfReleaseFence(t) => a.t == t && ReleaseFences(a)
    case OfTermination(t) => a == Terminate(t)
    case OfToken(k) => a.ReleaseClock? && a.token == k
    case OfScFence => ScFences(a)
    case _ => false
  }

  ghost predicate Fed(tr: Trace, hb: seq<set<nat>>, s: Slot, x: nat) {
    exists j: nat :: j < |tr| && j < |hb| && Feeds(tr[j], s) && x in hb[j]
  }

  /** The declared meaning of each slot. */
  ghost predicate Reaches(tr: Trace, hb: seq<set<nat>>, s: Slot, x: nat) {
    match s
    case OfAcquireFence(t) => exists q: nat :: PendingReaches(tr, hb, t, x, q)
    case OfLocation(loc) => SyncReaches(tr, hb, |tr|, loc, x)
    case _ => Fed(tr, hb, s, x)
  }

  /** Only ids the machine knows occur in the trace. */
  ghost predicate Known(tr: Trace, p: Sets) {
    && |p.threads| == |p.termination|
    && forall j :: 0 <= j < |tr| ==>
      && tr[j].t < |p.threads|
      && (tr[j].Create? ==> tr[j].child < |p.threads|)
      && (tr[j].Terminate? ==> p.termination[tr[j].t].Some?)
      && (tr[j].ReleaseClock? ==> tr[j].token in p.tokens)
      && (IsAccess(tr[j]) || tr[j].Allocate? ==> tr[j].loc in p.sync)
  }

  // One step, for a trace `tr` with pasts `hb`, extended by an action `a` with past `now`.

  lemma SequencePrefix(tr: Trace, a: Action, p: nat, q: nat, loc: nat)
    requires q <= |tr|
    ensures SequenceReaches(tr + [a], p, q, loc) <==> SequenceReaches(tr, p, q, loc)
  {
    var all := tr + [a];
    assert forall k :: 0 <= k < |tr| ==> all[k] == tr[k];
    if SequenceReaches(all, p, q, loc) {
      forall k | p < k < q ensures !CutsSequence(tr[k], loc) {
        assert !CutsSequence(all[k], loc);
      }
    }
  }

  lemma SyncReachesPrefix(tr: Trace, hb: seq<set<nat>>, a: Action, now: set<nat>, q: nat, loc: nat, x: nat)
    requires |hb| == |tr| && q <= |tr|
    ensures SyncReaches(tr + [a], hb + [now], q, loc, x) <==> SyncReaches(tr, hb, q, loc, x)
  {
    forall p: nat, i: nat
      ensures SyncSource(tr + [a], hb + [now], q, loc, x, p, i) <==> SyncSource(tr, hb, q, loc, x, p, i)
    {
      SequencePrefix(tr, a, p, q, loc);
    }
  }

  lemma FedStep(tr: Trace, hb: seq<set<nat>>, a: Action, now: set<nat>, s: Slot, x: nat)
    requires |hb| == |tr|
    ensures Fed(tr + [a], hb + [now], s, x) <==> Fed(tr, hb, s, x) || (Feeds(a, s) && x in now)
  {
    var all, hb' := tr + [a], hb + [now];
    assert all[|tr|] == a && hb'[|tr|] == now;
    if Fed(tr, hb, s, x) {
      var j: nat :| j < |tr| && Feeds(tr[j], s) && x in hb[j];
      assert all[j] == tr[j] && hb'[j] == hb[j];
    }
  }

  /** What the new position's incoming edges reach, slot by slot. */
  ghost predicate Incoming(tr: Trace, hb: seq<set<nat>>, a: Action, x: nat) {
    || Fed(tr, hb, OfThread(a.t), x)
    || (a.JoinThread? && Fed(tr, hb, OfTermination(a.joinee), x))
    || (a.AcquireClock? && Fed(tr, hb, OfToken(a.token), x))
    || (ScFences(a) && Fed(tr, hb, OfScFence, x))
    || (AcquireReads(a) && SyncReaches(tr, hb, |tr|, a.loc, x))
    || (AcquireFences(a) && Reaches(tr, hb, OfAcquireFence(a.t), x))
  }

  /** An acquiring read already holds what its location published. */
  ghost predicate AcquiredEarlier(tr: Trace, hb: seq<set<nat>>, x: nat) {
    forall q: nat :: q < |tr| && q < |hb| && AcquireReads(tr[q]) && SyncReaches(tr, hb, q, tr[q].loc, x) ==> x in hb[q]
  }

  ghost predicate HasEdge(tr: Trace, hb: seq<set<nat>>, a: Action, x: nat) {
    exists i: nat :: i < |hb| && Edge(tr + [a], i, |tr|) && x in hb[i]
  }

  lemma {:induction false} HbAcquiredEarlier(tr: Trace, x: nat)
    ensures AcquiredEarlier(tr, Hb(tr), x)
  {
    forall q: nat | q < |tr| && AcquireReads(tr[q]) && SyncReaches(tr, Hb(tr), q, tr[q].loc, x)
      ensures x in Hb(tr)[q]
    {
      var p: nat, i: nat :| SyncSource(tr, Hb(tr), q, tr[q].loc, x, p, i);
      assert SyncThrough(tr, i, p, q, q);
      assert Edge(tr, i, q);
      HbUnfold(tr, q, x);
    }
  }

  lemma EdgeIsIncoming(tr: Trace, hb: seq<set<nat>>, a: Action, i: nat, x: nat)
    requires |hb| == |tr| && AcquiredEarlier(tr, hb, x)
    requires i < |tr| && Edge(tr + [a], i, |tr|) && x in hb[i]
    ensures Incoming(tr, hb, a, x)
  {
    var all := tr + [a];
    var n := |tr|;
    assert all[i] == tr[i] && all[n] == a;
    if AtomicSync(all, i, n) {
      var p: nat, q: nat :| SyncThrough(all, i, p, q, n);
      SequencePrefix(tr, a, p, q, all[q].loc);
      assert ReleaseVia(tr, i, p);
      assert SyncSource(tr, hb, q, all[q].loc, x, p, i);
      if q < n {
        if AcquireReads(tr[q]) {
          assert x in hb[q];
        } else {
          assert PendingReaches(tr, hb, a.t, x, q);
        }
      }
    }
  }

  lemma IncomingIsEdge(tr: Trace, hb: seq<set<nat>>, a: Action, x: nat)
    requires |hb| == |tr| && Incoming(tr, hb, a, x)
    ensures HasEdge(tr, hb, a, x)
  {
    var all := tr + [a];
    var n := |tr|;
    assert all[n] == a;
    if j: nat :| j < n && PlainEdge(tr[j], a) && x in hb[j] {
      assert all[j] == tr[j];
      assert Edge(all, j, n);
    } else if AcquireReads(a) && SyncReaches(tr, hb, n, a.loc, x) {
      var p: nat, i: nat :| SyncSource(tr, hb, n, a.loc, x, p, i);
      assert SyncThrough(all, i, p, n, n);
      assert Edge(all, i, n);
    } else {
      var q: nat :| PendingReaches(tr, hb, a.t, x, q);
      var p: nat, i: nat :| SyncSource(tr, hb, q, tr[q].loc, x, p, i);
      assert SyncThrough(all, i, p, q, n);
      assert Edge(all, i, n);
    }
  }

  /** `now` is what the edges into the new position reach. */
  ghost predicate IsNow(tr: Trace, hb: seq<set<nat>>, a: Action, now: set<nat>, x: nat) {
    x in now <==> x == |tr| || Incoming(tr, hb, a, x)
  }

  lemma {:induction false} HbOfNew(tr: Trace, a: Action, x: nat)
    ensures |Hb(tr + [a])| == |tr| + 1 && Hb(tr + [a]) == Hb(tr) + [Hb(tr + [a])[|tr|]]
    ensures IsNow(tr, Hb(tr), a, Hb(tr + [a])[|tr|], x)
  {
    var all := tr + [a];
    HbPrefix(all, |tr|);
    assert all[..|tr|] == tr;
    HbUnfold(all, |tr|, x);
    HbAcquiredEarlier(tr, x);
    if i: nat :| i < |tr| && Edge(all, i, |tr|) && x in Hb(tr)[i] {
      EdgeIsIncoming(tr, Hb(tr), a, i, x);
    }
    if Incoming(tr, Hb(tr), a, x) {
      IncomingIsEdge(tr, Hb(tr), a, x);
      var i: nat :| i < |tr| && Edge(all, i, |tr|) && x in Hb(tr)[i];
      assert Hb(all)[i] == Hb(tr)[i];
    }
  }

  /** A thread's past happens before its next action. */
  lemma {:induction false} PastIsBefore(tr: Trace, a: Action, x: nat)
    requires Fed(tr, Hb(tr), OfThread(a.t), x)
    ensures x in Hb(tr + [a])[|tr|]
  {
    HbOfNew(tr, a, x);
  }

  ghost predicate MatchesAt(tr: Trace, hb: seq<set<nat>>, p: Sets, x: nat) {
    forall s :: HasSlot(p, s) ==> (x in SetIn(p, s) <==> Reaches(tr, hb, s, x))
  }

  /** The new position's past is what the machine puts into its thread's slot. */
  lemma NewPast(tr: Trace, hb: seq<set<nat>>, a: Action, now: set<nat>, p: Sets, x: nat)
    requires |hb| == |tr| && IsNow(tr, hb, a, now, x)
    requires MatchesAt(tr, hb, p, x) && EventSets.Enabled(p, a)
    ensures x in now <==> x in SetIn(EventSets.Step(p, |tr|, a), OfThread(a.t))
  {
    var own := x in SetIn(p, OfThread(a.t));
    assert own <==> Fed(tr, hb, OfThread(a.t), x);
    if a.JoinThread? {
      assert x in SetIn(p, OfTermination(a.joinee)) <==> Fed(tr, hb, OfTermination(a.joinee), x);
    } else if a.AcquireClock? {
      assert x in SetIn(p, OfToken(a.token)) <==> Fed(tr, hb, OfToken(a.token), x);
    } else if a.Fence? {
      assert x in SetIn(p, OfScFence) <==> Fed(tr, hb, OfScFence, x);
      assert x in SetIn(p, OfAcquireFence(a.t)) <==> Reaches(tr, hb, OfAcquireFence(a.t), x);
    } else if IsAccess(a) {
      assert x in SetIn(p, OfLocation(a.loc)) <==> SyncReaches(tr, hb, |tr|, a.loc, x);
    }
  }

  lemma PublishedReaches(tr: Trace, hb: seq<set<nat>>, a: Action, now: set<nat>, x: nat)
    requires |hb| == |tr| && Modifies(a)
    requires if ReleaseWrites(a) then x in now else Fed(tr, hb, OfReleaseFence(a.t), x)
    ensures SyncReaches(tr + [a], hb + [now], |tr| + 1, a.loc, x)
  {
    var all, hb' := tr + [a], hb + [now];
    var n := |tr|;
    assert all[n] == a && hb'[n] == now;
    assert SequenceReaches(all, n, n + 1, a.loc);
    if ReleaseWrites(a) {
      assert SyncSource(all, hb', n + 1, a.loc, x, n, n);
    } else {
      var j: nat :| j < n && Feeds(tr[j], OfReleaseFence(a.t)) && x in hb[j];
      assert all[j] == tr[j] && hb'[j] == hb[j];
      assert SyncSource(all, hb', n + 1, a.loc, x, n, j);
    }
  }

  /** A location's sources after one more step: kept unless cut, plus what a modification publishes. */
  lemma LocationStep(tr: Trace, hb: seq<set<nat>>, a: Action, now: set<nat>, loc: nat, x: nat)
    requires |hb| == |tr| && IsNow(tr, hb, a, now, x)
    ensures SyncReaches(tr + [a], hb + [now], |tr| + 1, loc, x) <==>
      || (!CutsSequence(a, loc) && SyncReaches(tr, hb, |tr|, loc, x))
      || (Modifies(a) && a.loc == loc && if ReleaseWrites(a) then x in now else Fed(tr, hb, OfReleaseFence(a.t), x))
  {
    var all, hb' := tr + [a], hb + [now];
    var n := |tr|;
    assert all[n] == a && hb'[n] == now;
    if SyncReaches(all, hb', n + 1, loc, x) {
      var p: nat, i: nat :| SyncSource(all, hb', n + 1, loc, x, p, i);
      assert i < n ==> all[i] == tr[i] && hb'[i] == hb[i];
      if p < n {
        assert !CutsSequence(all[n], loc);
        assert SequenceReaches(all, p, n, loc);
        SequencePrefix(tr, a, p, n, loc);
        assert ReleaseVia(tr, i, p);
        assert SyncSource(tr, hb, n, loc, x, p, i);
      } else if i < n {
        assert Feeds(tr[i], OfReleaseFence(a.t)) && Feeds(tr[i], OfThread(a.t));
        assert Fed(tr, hb, OfThread(a.t), x);
      }
    }
    if !CutsSequence(a, loc) && SyncReaches(tr, hb, n, loc, x) {
      var p: nat, i: nat :| SyncSource(tr, hb, n, loc, x, p, i);
      assert SequenceReaches(all, p, n + 1, loc) && ReleaseVia(all, i, p);
      assert SyncSource(all, hb', n + 1, loc, x, p, i);
    }
    if Modifies(a) && a.loc == loc && if ReleaseWrites(a) then x in now else Fed(tr, hb, OfReleaseFence(a.t), x) {
      PublishedReaches(tr, hb, a, now, x);
    }
  }

  lemma PendingStep(tr: Trace, hb: seq<set<nat>>, a: Action, now: set<nat>, t: nat, x: nat)
    requires |hb| == |tr|
    ensures Reaches(tr + [a], hb + [now], OfAcquireFence(t), x) <==>
      || Reaches(tr, hb, OfAcquireFence(t), x)
      || (a.t == t && Reads(a) && !AcquireReads(a) && SyncReaches(tr, hb, |tr|, a.loc, x))
  {
    var all, hb' := tr + [a], hb + [now];
    forall q: nat | q < |tr|
      ensures PendingReaches(all, hb', t, x, q) <==> PendingReaches(tr, hb, t, x, q)
    {
      assert all[q] == tr[q];
      SyncReachesPrefix(tr, hb, a, now, q, if Reads(tr[q]) then tr[q].loc else 0, x);
    }
    assert all[|tr|] == a;
    if Reads(a) {
      SyncReachesPrefix(tr, hb, a, now, |tr|, a.loc, x);
      assert PendingReaches(all, hb', t, x, |tr|) <==>
        a.t == t && !AcquireReads(a) && SyncReaches(tr, hb, |tr|, a.loc, x);
    }
  }

  lemma OldSlotStep(tr: Trace, hb: seq<set<nat>>, a: Action, now: set<nat>, p: Sets, s: Slot, x: nat)
    requires |hb| == |tr| && IsNow(tr, hb, a, now, x) && !s.OfAcquireFence? && !s.OfLocation?
    requires Known(tr, p) && MatchesAt(tr, hb, p, x) && EventSets.Enabled(p, a)
    requires HasSlot(EventSets.Step(p, |tr|, a), s)
    requires HasSlot(p, s)
    ensures x in SetIn(EventSets.Step(p, |tr|, a), s) <==> Reaches(tr + [a], hb + [now], s, x)
  {
    NewPast(tr, hb, a, now, p, x);
    FedStep(tr, hb, a, now, s, x);
    assert x in SetIn(p, s) <==> Fed(tr, hb, s, x);
    if s.OfReleaseFence? && Fed(tr, hb, s, x) {
      assert Fed(tr, hb, OfThread(s.t), x);
    }
    if s.OfScFence? {
      assert Feeds(a, s) && Fed(tr, hb, s, x) ==> Incoming(tr, hb, a, x);
    }
  }

  lemma NewSlotStep(tr: Trace, hb: seq<set<nat>>, a: Action, now: set<nat>, p: Sets, s: Slot, x: nat)
    requires |hb| == |tr| && IsNow(tr, hb, a, now, x) && !s.OfAcquireFence? && !s.OfLocation?
    requires Known(tr, p) && MatchesAt(tr, hb, p, x) && EventSets.Enabled(p, a)
    requires HasSlot(EventSets.Step(p, |tr|, a), s)
    requires !HasSlot(p, s)
    ensures x in SetIn(EventSets.Step(p, |tr|, a), s) <==> Reaches(tr + [a], hb + [now], s, x)
  {
    NewPast(tr, hb, a, now, p, x);
    FedStep(tr, hb, a, now, s, x);
    assert !Fed(tr, hb, s, x);
  }

  lemma FedSlotStep(tr: Trace, hb: seq<set<nat>>, a: Action, now: set<nat>, p: Sets, s: Slot, x: nat)
    requires |hb| == |tr| && IsNow(tr, hb, a, now, x) && !s.OfAcquireFence? && !s.OfLocation?
    requires Known(tr, p) && MatchesAt(tr, hb, p, x) && EventSets.Enabled(p, a)
    requires HasSlot(EventSets.Step(p, |tr|, a), s)
    ensures x in SetIn(EventSets.Step(p, |tr|, a), s) <==> Reaches(tr + [a], hb + [now], s, x)
  {
    if HasSlot(p, s) {
      OldSlotStep(tr, hb, a, now, p, s, x);
    } else {
      NewSlotStep(tr, hb, a, now, p, s, x);
    }
  }

  lemma PendingSlotStep(tr: Trace, hb: seq<set<nat>>, a: Action, now: set<nat>, p: Sets, s: Slot, x: nat)
    requires |hb| == |tr| && IsNow(tr, hb, a, now, x)
    requires Known(tr, p) && MatchesAt(tr, hb, p, x) && EventSets.Enabled(p, a)
    requires HasSlot(EventSets.Step(p, |tr|, a), s)
    requires s.OfAcquireFence?
    ensures x in SetIn(EventSets.Step(p, |tr|, a), s) <==> Reaches(tr + [a], hb + [now], s, x)
  {
    PendingStep(tr, hb, a, now, s.t, x);
    if HasSlot(p, s) {
      assert x in SetIn(p, s) <==> Reaches(tr, hb, s, x);
    }
    if Reads(a) {
      assert x in SetIn(p, OfLocation(a.loc)) <==> SyncReaches(tr, hb, |tr|, a.loc, x);
    }
  }

  lemma LocationSlotStep(tr: Trace, hb: seq<set<nat>>, a: Action, now: set<nat>, p: Sets, s: Slot, x: nat)
    requires |hb| == |tr| && IsNow(tr, hb, a, now, x)
    requires Known(tr, p) && MatchesAt(tr, hb, p, x) && EventSets.Enabled(p, a)
    requires HasSlot(EventSets.Step(p, |tr|, a), s)
    requires s.OfLocation?
    ensures x in SetIn(EventSets.Step(p, |tr|, a), s) <==> Reaches(tr + [a], hb + [now], s, x)
  {
    LocationStep(tr, hb, a, now, s.loc, x);
    if HasSlot(p, s) {
      assert x in SetIn(p, s) <==> SyncReaches(tr, hb, |tr|, s.loc, x);
    }
    NewPast(tr, hb, a, now, p, x);
    assert x in SetIn(p, OfReleaseFence(a.t)) <==> Fed(tr, hb, OfReleaseFence(a.t), x);
  }

  lemma SlotStep(tr: Trace, hb: seq<set<nat>>, a: Action, now: set<nat>, p: Sets, s: Slot, x: nat)
    requires |hb| == |tr| && IsNow(tr, hb, a, now, x)
    requires Known(tr, p) && MatchesAt(tr, hb, p, x) && EventSets.Enabled(p, a)
    requires HasSlot(EventSets.Step(p, |tr|, a), s)
    ensures x in SetIn(EventSets.Step(p, |tr|, a), s) <==> Reaches(tr + [a], hb + [now], s, x)
  {
    if s.OfAcquireFence? {
      PendingSlotStep(tr, hb, a, now, p, s, x);
    } else if s.OfLocation? {
      LocationSlotStep(tr, hb, a, now, p, s, x);
    } else {
      FedSlotStep(tr, hb, a, now, p, s, x);
    }
  }

  lemma MatchStep(tr: Trace, hb: seq<set<nat>>, a: Action, now: set<nat>, p: Sets)
    requires |hb| == |tr| && (forall x :: IsNow(tr, hb, a, now, x))
    requires Known(tr, p) && (forall x :: MatchesAt(tr, hb, p, x)) && EventSets.Enabled(p, a)
    ensures Known(tr + [a], EventSets.Step(p, |tr|, a))
    ensures forall x :: MatchesAt(tr + [a], hb + [now], EventSets.Step(p, |tr|, a), x)
  {
    forall x: nat ensures MatchesAt(tr + [a], hb + [now], EventSets.Step(p, |tr|, a), x) {
      assert IsNow(tr, hb, a, now, x) && MatchesAt(tr, hb, p, x);
      forall s | HasSlot(EventSets.Step(p, |tr|, a), s)
        ensures x in SetIn(EventSets.Step(p, |tr|, a), s) <==> Reaches(tr + [a], hb + [now], s, x)
      {
        SlotStep(tr, hb, a, now, p, s, x);
      }
    }
  }

  lemma {:induction false} SetsMatchStep(pre: Trace, a: Action, tr: Trace)
    requires tr == pre + [a] && WellFormed(tr)
    requires Known(pre, Run(pre)) && forall x :: MatchesAt(pre, Hb(pre), Run(pre), x)
    ensures Known(tr, Run(tr)) && forall x :: MatchesAt(tr, Hb(tr), Run(tr), x)
  {
    var n := |pre|;
    RunExtend(pre, a);
    forall x: nat ensures IsNow(pre, Hb(pre), a, Hb(tr)[n], x) {
      HbOfNew(pre, a, x);
    }
    HbOfNew(pre, a, 0);
    MatchStep(pre, Hb(pre), a, Hb(tr)[n], Run(pre));
  }

  /** Main result of this module, for every trace, slot and position. */
  lemma {:induction false} SetsMatch(tr: Trace)
    requires WellFormed(tr)
    ensures Known(tr, Run(tr))
    ensures forall x :: MatchesAt(tr, Hb(tr), Run(tr), x)
    decreases |tr|
  {
    if |tr| > 0 {
      var pre, a := Last(tr);
      SetsMatch(pre);
      SetsMatchStep(pre, a, tr);
    }
  }
}
