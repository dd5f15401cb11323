/** Happens-before over a trace, declared without any clock: program order, thread creation and
    joining, clocks handed over explicitly, SC fences, and synchronization through atomics with
    release sequences and fences, closed transitively. */
module HappensBefore {
  import opened Actions

  // Which actions synchronize, by their orderings. The detector's own tables are in `Actions`.

  predicate ReleaseWrites(a: Action) {
    || (a.Store? && a.word in {ReleaseWrite, SeqCstWrite})
    || (a.Rmw? && a.aord in {ReleaseRw, AcqRelRw, SeqCstRw})
  }

  predicate AcquireReads(a: Action) {
    || (a.Load? && a.rord in {AcquireRead, SeqCstRead})
    || (a.Rmw? && a.aord in {AcquireRw, AcqRelRw, SeqCstRw})
  }

  predicate ReleaseFences(a: Action) { a.Fence? && a.ford in {ReleaseFence, AcqRelFence, SeqCstFence} }
  predicate AcquireFences(a: Action) { a.Fence? && a.ford in {AcquireFence, AcqRelFence, SeqCstFence} }
  predicate ScFences(a: Action) { a.Fence? && a.ford == SeqCstFence }

  /** What ends every release sequence of a location: each plain store, and each non-atomic write. */
  predicate CutsSequence(a: Action, loc: nat) {
    (a.Store? || a.NaWrite? || a.Allocate?) && a.loc == loc
  }

  /** A read of `loc` just before position `q` reads from `p` or from a release sequence that `p` heads. */
  predicate SequenceReaches(tr: Trace, p: nat, q: nat, loc: nat) {
    p < q <= |tr| && Modifies(tr[p]) && tr[p].loc == loc &&
    forall k :: p < k < q ==> !CutsSequence(tr[k], loc)
  }

  /** `i` is the releasing side of the modification at `p`: `p` itself, or an earlier release fence. */
  predicate ReleaseVia(tr: Trace, i: nat, p: nat) {
    i <= p < |tr| &&
    if i == p then ReleaseWrites(tr[p]) else tr[i].t == tr[p].t && ReleaseFences(tr[i])
  }

  /** `j` is the acquiring side of the read at `q`: `q` itself, or a later acquire fence. */
  predicate AcquireVia(tr: Trace, q: nat, j: nat) {
    q <= j < |tr| &&
    if q == j then AcquireReads(tr[q]) else tr[q].t == tr[j].t && AcquireFences(tr[j])
  }

  predicate SyncThrough(tr: Trace, i: nat, p: nat, q: nat, j: nat) {
    AcquireVia(tr, q, j) && Reads(tr[q]) && SequenceReaches(tr, p, q, tr[q].loc) && ReleaseVia(tr, i, p)
  }

  /** The atomic synchronization edge from `i` to `j`. */
  ghost predicate AtomicSync(tr: Trace, i: nat, j: nat) {
    exists p: nat, q: nat :: SyncThrough(tr, i, p, q, j)
  }

  predicate PlainEdge(a: Action, b: Action) {
    || a.t == b.t
    || (a.Create? && a.child == b.t)
    || (a.Terminate? && b.JoinThread? && a.t == b.joinee)
    || (a.ReleaseClock? && b.AcquireClock? && a.token == b.token)
    || (ScFences(a) && ScFences(b))
  }

  ghost predicate Edge(tr: Trace, i: nat, j: nat) {
    i < j < |tr| && (PlainEdge(tr[i], tr[j]) || AtomicSync(tr, i, j))
  }

  ghost predicate IsOrFollows(tr: Trace, hb: seq<set<nat>>, n: nat, x: nat) {
    x == n || exists i: nat :: i < |hb| && Edge(tr, i, n) && x in hb[i]
  }

  /** For every position, the positions that happen before it or are it. */
  ghost function Hb(tr: Trace): (hb: seq<set<nat>>)
    ensures |hb| == |tr|
    ensures forall j, x :: 0 <= j < |tr| && x in hb[j] ==> x <= j
  {
    if tr == [] then []
    else
      var n := |tr| - 1;
      var hb := Hb(tr[..n]);
      hb + [set x: nat | x <= n && IsOrFollows(tr, hb, n, x)]
  }

  lemma {:induction false} HbPrefix(tr: Trace, n: nat)
    requires n <= |tr|
    ensures Hb(tr[..n]) == Hb(tr)[..n]
  {
    if n < |tr| {
      HbPrefix(tr[..|tr| - 1], n);
      assert tr[..|tr| - 1][..n] == tr[..n];
    } else {
      assert tr[..n] == tr;
    }
  }

  lemma EdgePrefix(tr: Trace, n: nat, i: nat, j: nat)
    requires j < n <= |tr|
    ensures Edge(tr[..n], i, j) <==> Edge(tr, i, j)
  {
    forall p: nat, q: nat ensures SyncThrough(tr[..n], i, p, q, j) <==> SyncThrough(tr, i, p, q, j) {
    }
  }

  /** The recursion behind `Hb`, at every position. */
  lemma {:induction false} HbUnfold(tr: Trace, j: nat, x: nat)
    requires j < |tr|
    ensures x in Hb(tr)[j] <==> x == j || exists i: nat :: Edge(tr, i, j) && x in Hb(tr)[i]
  {
    var pre := tr[..j + 1];
    HbPrefix(tr, j + 1);
    HbPrefix(tr, j);
    assert pre[..j] == tr[..j];
    forall i: nat ensures Edge(pre, i, j) <==> Edge(tr, i, j) {
      EdgePrefix(tr, j + 1, i, j);
    }
    assert Hb(pre)[j] == Hb(tr)[j];
    assert forall i: nat :: Edge(tr, i, j) ==> Hb(pre[..j])[i] == Hb(tr)[i];
  }

  lemma {:induction false} HbTransitive(tr: Trace, x: nat, y: nat, z: nat)
    requires z < |tr| && y in Hb(tr)[z] && x in Hb(tr)[y]
    ensures x in Hb(tr)[z]
    decreases z
  {
    HbUnfold(tr, z, y);
    if y != z {
      var i: nat :| Edge(tr, i, z) && y in Hb(tr)[i];
      HbTransitive(tr, x, y, i);
      HbUnfold(tr, z, x);
    }
  }

  /** Every pair of a release and an acquire, through accesses or fences, is ordered. */
  lemma {:induction false} SyncIsBefore(tr: Trace, i: nat, p: nat, q: nat, j: nat)
    requires SyncThrough(tr, i, p, q, j)
    ensures i in Hb(tr)[j]
  {
    assert Edge(tr, i, j);
    HbUnfold(tr, i, i);
    HbUnfold(tr, j, i);
  }

  ghost predicate IsPath(tr: Trace, path: seq<nat>) {
    path != [] && (forall k :: 0 <= k < |path| ==> path[k] < |tr|) &&
    forall k :: 0 <= k < |path| - 1 ==> Edge(tr, path[k], path[k + 1])
  }

  /** `Hb` is exactly reachability along edges. */
  lemma {:induction false} HbIsReachability(tr: Trace, i: nat, j: nat)
    requires j < |tr|
    ensures i in Hb(tr)[j] <==> exists path :: IsPath(tr, path) && path[0] == i && path[|path| - 1] == j
    decreases j
  {
    HbUnfold(tr, j, i);
    if i in Hb(tr)[j] {
      if i == j {
        assert IsPath(tr, [i]) && [i][0] == i && [i][|[i]| - 1] == j;
      } else {
        var k: nat :| Edge(tr, k, j) && i in Hb(tr)[k];
        HbIsReachability(tr, i, k);
        var path :| IsPath(tr, path) && path[0] == i && path[|path| - 1] == k;
        var longer := path + [j];
        assert IsPath(tr, longer) && longer[0] == i && longer[|longer| - 1] == j;
      }
    } else if path :| IsPath(tr, path) && path[0] == i && path[|path| - 1] == j {
      assert |path| > 1;
      var k := path[|path| - 2];
      var shorter := path[..|path| - 1];
      assert Edge(tr, path[|path| - 2], path[|path| - 2 + 1]);
      assert IsPath(tr, shorter) && shorter[0] == i && shorter[|shorter| - 1] == k;
      HbIsReachability(tr, i, k);
      assert false;
    }
  }
}
