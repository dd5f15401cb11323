/** The synchronization machine on sets of trace positions: where the detector keeps a clock, this
    machine keeps the set of positions that the clock stands for, and join is union. */
module EventSets {
  import opened Wrappers
  import opened Actions

  datatype ThreadSets = ThreadSets(past: set<nat>, fenceAcquire: set<nat>, fenceRelease: set<nat>)

  datatype Sets = Sets(
    threads: seq<ThreadSets>,
    termination: seq<Option<set<nat>>>,
    tokens: map<nat, set<nat>>,
    lastScFence: set<nat>,
    sync: map<nat, set<nat>>)

  const START := Sets([ThreadSets({}, {}, {})], [None], map[], {}, map[])

  /** What the surrounding interpreter guarantees of a step: only running threads act, ids are
      given out in order, a join waits for termination, and tokens and locations are fresh. */
  predicate Enabled(p: Sets, a: Action) {
    && |p.threads| == |p.termination|
    && a.t < |p.threads| && p.termination[a.t].None?
    && match a
       case Create(_, child) => child == |p.threads|
       case Terminate(_) => true
       case JoinThread(_, joinee) => joinee < |p.threads| && p.termination[joinee].Some?
       case ReleaseClock(_, token) => token !in p.tokens
       case AcquireClock(_, token) => token in p.tokens
       case Fence(_, _) => true
       case Allocate(_, loc, _) => loc !in p.sync
       case _ => a.loc in p.sync
  }

  function FenceSets(p: Sets, ts: ThreadSets, ord: FenceOrd): (r: (ThreadSets, set<nat>)) {
    var ts := if ord != ReleaseFence then ts.(past := ts.past + ts.fenceAcquire) else ts;
    var sc := if ord == SeqCstFence then p.lastScFence + ts.past else p.lastScFence;
    var ts := if ord == SeqCstFence then ts.(past := ts.past + sc) else ts;
    (if ord != AcquireFence then ts.(fenceRelease := ts.past) else ts, sc)
  }

  function Acquired(ts: ThreadSets, k: set<nat>, acquire: bool): ThreadSets {
    if acquire then ts.(past := ts.past + k) else ts.(fenceAcquire := ts.fenceAcquire + k)
  }

  function Published(ts: ThreadSets, release: bool): set<nat> {
    if release then ts.past else ts.fenceRelease
  }

  function Record(p: Sets, t: nat, n: nat): Sets
    requires t < |p.threads|
  {
    p.(threads := p.threads[t := p.threads[t].(past := p.threads[t].past + {n})])
  }

  /** Position `n` performs `a`: it joins its own thread's past and then synchronizes. */
  function Step(p: Sets, n: nat, a: Action): Sets
    requires Enabled(p, a)
  {
    Effect(Record(p, a.t, n), a)
  }

  function Effect(p: Sets, a: Action): Sets
    requires Enabled(p, a)
  {
    var t := a.t;
    var ts := p.threads[t];
    match a
    case Create(_, _) => p.(threads := p.threads + [ThreadSets(ts.past, {}, {})], termination := p.termination + [None])
    case Terminate(_) => p.(termination := p.termination[t := Some(ts.past)])
    case JoinThread(_, joinee) => p.(threads := p.threads[t := Acquired(ts, p.termination[joinee].value, true)])
    case ReleaseClock(_, token) => p.(tokens := p.tokens[token := ts.past])
    case AcquireClock(_, token) => p.(threads := p.threads[t := Acquired(ts, p.tokens[token], true)])
    case Fence(_, ord) =>
      var (ts', sc) := FenceSets(p, ts, ord);
      p.(threads := p.threads[t := ts'], lastScFence := sc)
    case Allocate(_, loc, _) => p.(sync := p.sync[loc := {}])
    case NaRead(_, _) => p
    case NaWrite(_, loc, _) => p.(sync := p.sync[loc := {}])
    case Load(_, loc, _, ord) => p.(threads := p.threads[t := Acquired(ts, p.sync[loc], Acquires(ord))])
    case Store(_, loc, _, ord) => p.(sync := p.sync[loc := Published(ts, Releases(ord))])
    case Rmw(_, loc, _, ord) =>
      var ts' := Acquired(ts, p.sync[loc], RwAcquires(ord));
      p.(threads := p.threads[t := ts'], sync := p.sync[loc := p.sync[loc] + Published(ts', RwReleases(ord))])
  }

  ghost function Run(tr: seq<Action>): Sets {
    if tr == [] then START
    else
      var n := |tr| - 1;
      var p := Run(tr[..n]);
      if Enabled(p, tr[n]) then Step(p, n, tr[n]) else p
  }

  /** Traces the interpreter can produce: every step is enabled. */
  ghost predicate WellFormed(tr: seq<Action>) {
    forall n :: 0 <= n < |tr| ==> Enabled(Run(tr[..n]), tr[n])
  }

  lemma WellFormedPrefix(tr: seq<Action>, n: nat)
    requires WellFormed(tr) && n <= |tr|
    ensures WellFormed(tr[..n])
  {
    forall k | 0 <= k < n ensures Enabled(Run(tr[..n][..k]), tr[..n][k]) {
      assert tr[..n][..k] == tr[..k];
    }
  }

  lemma SplitLast(tr: seq<Action>) returns (pre: seq<Action>, a: Action)
    requires |tr| > 0
    ensures tr == pre + [a]
  {
    pre, a := tr[..|tr| - 1], tr[|tr| - 1];
  }

  /** A trace and its last step. */
  lemma {:induction false} Last(tr: seq<Action>) returns (pre: seq<Action>, a: Action)
    requires WellFormed(tr) && |tr| > 0
    ensures tr == pre + [a] && WellFormed(pre)
  {
    pre, a := SplitLast(tr);
    WellFormedInit(pre, a);
  }

  lemma {:induction false} WellFormedInit(pre: seq<Action>, a: Action)
    requires WellFormed(pre + [a])
    ensures WellFormed(pre)
  {
    assert (pre + [a])[..|pre|] == pre;
    WellFormedPrefix(pre + [a], |pre|);
  }

  lemma {:induction false} RunExtend(tr: seq<Action>, a: Action)
    requires WellFormed(tr + [a])
    ensures WellFormed(tr) && Enabled(Run(tr), a) && Run(tr + [a]) == Step(Run(tr), |tr|, a)
  {
    var all := tr + [a];
    assert all[..|tr|] == tr;
    WellFormedPrefix(all, |tr|);
    assert Enabled(Run(all[..|tr|]), all[|tr|]);
  }

  // The slots of the machine.

  /** The places that hold a clock in the detector and a set here. */
  datatype Slot =
    | OfThread(t: nat)
    | OfAcquireFence(t: nat)
    | OfReleaseFence(t: nat)
    | OfTermination(t: nat)
    | OfToken(token: nat)
    | OfScFence
    | OfLocation(loc: nat)

  predicate HasSlot(p: Sets, s: Slot) {
    match s
    case OfThread(t) => t < |p.threads|
    case OfAcquireFence(t) => t < |p.threads|
    case OfReleaseFence(t) => t < |p.threads|
    case OfTermination(t) => t < |p.termination| && p.termination[t].Some?
    case OfToken(k) => k in p.tokens
    case OfScFence => true
    case OfLocation(loc) => loc in p.sync
  }

  function SetIn(p: Sets, s: Slot): set<nat>
    requires HasSlot(p, s)
  {
    match s
    case OfThread(t) => p.threads[t].past
    case OfAcquireFence(t) => p.threads[t].fenceAcquire
    case OfReleaseFence(t) => p.threads[t].fenceRelease
    case OfTermination(t) => p.termination[t].value
    case OfToken(k) => p.tokens[k]
    case OfScFence => p.lastScFence
    case OfLocation(loc) => p.sync[loc]
  }
}
