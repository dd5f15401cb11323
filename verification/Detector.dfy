/** The whole detector as a step system: the global clocks, the clocks handed out through
    `release_clock`, and one shadow cell per location. It starts in the state of
    `GlobalState::new`, before any second thread exists. */
module Detector {
  import opened Wrappers
  import opened VectorClocks
  import opened ShadowCells
  import opened Actions

  datatype ThreadExtra = ThreadExtra(vectorIndex: Option<nat>, termination: Option<VClock>)

  /** The fields of `GlobalState` that race detection uses. */
  datatype Globals = Globals(
    multiThreaded: bool,
    clocks: seq<ThreadClocks>,
    vectorInfo: seq<nat>,
    threadInfo: seq<ThreadExtra>,
    reuse: set<nat>,
    lastScFence: VClock)

  datatype State = State(g: Globals, tokens: map<nat, VClock>, cells: map<nat, Cell>)

  datatype StepResult = StepResult(state: State, ok: bool)

  const INITIAL := State(
    Globals(false, [NO_CLOCKS], [0], [ThreadExtra(Some(0), None)], {}, []), map[], map[])

  // Operations on the global clocks.

  /** The vector index of a thread: it has one unless its index was handed to a newer thread. */
  function ThreadIndex(g: Globals, t: nat): nat {
    if t < |g.threadInfo| && g.threadInfo[t].vectorIndex.Some? then g.threadInfo[t].vectorIndex.value else 0
  }

  /** The clocks of thread `t`. */
  function ClocksOf(g: Globals, t: nat): ThreadClocks {
    var i := ThreadIndex(g, t);
    if i < |g.clocks| then g.clocks[i] else NO_CLOCKS
  }

  function WithClocks(g: Globals, t: nat, tc: ThreadClocks): Globals {
    var i := ThreadIndex(g, t);
    if i < |g.clocks| then g.(clocks := g.clocks[i := tc]) else g
  }

  function IncrementOwn(g: Globals, t: nat): Globals {
    var tc := ClocksOf(g, t);
    WithClocks(g, t, tc.(clock := Increment(tc.clock, ThreadIndex(g, t))))
  }

  function AcquireInto(g: Globals, t: nat, k: VClock): Globals {
    var tc := ClocksOf(g, t);
    WithClocks(g, t, tc.(clock := Join(tc.clock, k)))
  }

  /** Whether `candidate` may be given to a new thread: every vector index that is not itself
      a candidate has caught up with the candidate's last timestamp. */
  predicate MayReuse(g: Globals, candidate: nat) {
    candidate in g.reuse && candidate < |g.clocks| &&
    forall i :: 0 <= i < |g.clocks| ==>
      At(g.clocks[i].clock, candidate) >= At(g.clocks[candidate].clock, candidate) || i in g.reuse
  }

  /** Some reusable index; which one depends on the iteration order of a hash set. */
  ghost function ReuseCandidate(g: Globals): (r: Option<nat>)
    ensures r.Some? ==> MayReuse(g, r.value)
    ensures r.None? ==> forall c :: !MayReuse(g, c)
  {
    if c: nat :| MayReuse(g, c) then Some(c) else None
  }

  function Extended(info: seq<ThreadExtra>, t: nat): (r: seq<ThreadExtra>)
    ensures |r| > t && info <= r
  {
    if t < |info| then info else info + seq(t + 1 - |info|, _ => ThreadExtra(None, None))
  }

  /** The new thread's metadata, holding its vector index. */
  function Indexed(info: seq<ThreadExtra>, child: nat, index: nat): seq<ThreadExtra> {
    var info := Extended(info, child);
    info[child := info[child].(vectorIndex := Some(index))]
  }

  /** The new thread starts from its creator's clock, and both move to a new timestamp. */
  function CreationSync(clocks: seq<ThreadClocks>, current: nat, created: nat): seq<ThreadClocks> {
    if current < |clocks| && created < |clocks| then
      var joined := clocks[created := clocks[created].(clock := Join(clocks[created].clock, clocks[current].clock))];
      var first := joined[current := joined[current].(clock := Increment(joined[current].clock, current))];
      first[created := first[created].(clock := Increment(first[created].clock, created))]
    else clocks
  }

  /** Thread creation with a vector index of its own. */
  function CreatedFresh(g: Globals, t: nat, child: nat): Globals {
    var index := |g.vectorInfo|;
    var clocks := if index == |g.clocks| then g.clocks + [NO_CLOCKS] else g.clocks;
    g.(multiThreaded := true,
       clocks := CreationSync(clocks, ThreadIndex(g, t), index),
       vectorInfo := g.vectorInfo + [child],
       threadInfo := Indexed(g.threadInfo, child, index))
  }

  /** Thread creation with the vector index of an older thread, which loses it. */
  function CreatedReusing(g: Globals, t: nat, child: nat, index: nat): Globals {
    if index < |g.clocks| && index < |g.vectorInfo| then
      var clocks := g.clocks[index := g.clocks[index].(clock := Increment(g.clocks[index].clock, index))];
      var older := g.vectorInfo[index];
      var info := Extended(g.threadInfo, child);
      var info := if older < |info| then info[older := info[older].(vectorIndex := None)] else info;
      g.(multiThreaded := true,
         clocks := CreationSync(clocks, ThreadIndex(g, t), index),
         vectorInfo := g.vectorInfo[index := child],
         threadInfo := Indexed(info, child, index),
         reuse := g.reuse - {index})
    else g
  }

  ghost function ThreadCreated(g: Globals, t: nat, child: nat): Globals {
    var c := ReuseCandidate(g);
    if c.None? then CreatedFresh(g, t, child) else CreatedReusing(g, t, child, c.value)
  }

  function ThreadTerminated(g: Globals, t: nat): Globals {
    if t < |g.threadInfo| then
      var k := ClocksOf(g, t).clock;
      IncrementOwn(g, t).(threadInfo := g.threadInfo[t := g.threadInfo[t].(termination := Some(k))],
                          reuse := g.reuse + {ThreadIndex(g, t)})
    else g
  }

  predicate Terminated(g: Globals, t: nat) {
    t < |g.threadInfo| && g.threadInfo[t].termination.Some?
  }

  function LiveThreads(g: Globals): set<nat> {
    set t | 0 <= t < |g.threadInfo| && !Terminated(g, t)
  }

  /** The test that would switch detection off again: one live thread, and every own timestamp
      covered by the clock of the *joined* thread's vector index. */
  predicate MaySwitchOff(g: Globals, joinee: nat) {
    && joinee < |g.threadInfo| && g.threadInfo[joinee].vectorIndex.Some?
    && |LiveThreads(g)| == 1
    && forall i :: 0 <= i < |g.clocks| ==> At(g.clocks[i].clock, i) <= At(ClocksOf(g, joinee).clock, i)
  }

  function ThreadJoined(g: Globals, t: nat, joinee: nat): Globals
    requires Terminated(g, joinee)
  {
    var g' := AcquireInto(g, t, g.threadInfo[joinee].termination.value);
    if MaySwitchOff(g', joinee) then g'.(multiThreaded := false) else g'
  }

  /** What a fence makes of its thread's clocks and of the clock of the last SC fence. */
  function Fenced(tc: ThreadClocks, sc: VClock, ord: FenceOrd): (ThreadClocks, VClock) {
    var tc := if ord != ReleaseFence then tc.(clock := Join(tc.clock, tc.fenceAcquire)) else tc;
    var sc := if ord == SeqCstFence then Join(sc, tc.clock) else sc;
    var tc := if ord == SeqCstFence then tc.(clock := Join(tc.clock, sc)) else tc;
    (if ord != AcquireFence then tc.(fenceRelease := tc.clock) else tc, sc)
  }

  function AtomicFence(g: Globals, t: nat, ord: FenceOrd): Globals {
    if !g.multiThreaded then g
    else
      var f := Fenced(ClocksOf(g, t), g.lastScFence, ord);
      var g' := WithClocks(g, t, f.0).(lastScFence := f.1);
      if ord != AcquireFence then IncrementOwn(g', t) else g'
  }

  // Steps.

  /** The result of an atomic operation on one cell: every successful one ends by incrementing
      the thread's own timestamp, loads included. */
  function FinishAtomic(s: State, t: nat, loc: nat, r: OpResult): StepResult {
    var g' := WithClocks(s.g, t, r.clocks);
    if r.ok then StepResult(s.(g := IncrementOwn(g', t), cells := s.cells[loc := r.cell]), true)
    else StepResult(s.(g := g', cells := s.cells[loc := r.cell]), false)
  }

  function FinishNonAtomic(s: State, loc: nat, r: OpResult): StepResult {
    StepResult(s.(cells := s.cells[loc := r.cell]), r.ok)
  }

  /** What the surrounding interpreter guarantees of a step. */
  predicate Enabled(s: State, a: Action) {
    && a.t < |s.g.threadInfo| && !Terminated(s.g, a.t)
    && match a
       case Create(_, child) => child == |s.g.threadInfo|
       case Terminate(_) => true
       case JoinThread(_, joinee) => Terminated(s.g, joinee)
       case ReleaseClock(_, token) => token !in s.tokens
       case AcquireClock(_, token) => token in s.tokens
       case Fence(_, _) => true
       case Allocate(_, loc, _) => loc !in s.cells
       case _ => a.loc in s.cells
  }

  /** One access to a location, while detection is on. */
  function AccessStep(s: State, a: Action): StepResult
    requires IsAccess(a) && a.loc in s.cells
  {
    var r := Perform(s.cells[a.loc], ClocksOf(s.g, a.t), ThreadIndex(s.g, a.t), AttemptOf(a));
    if IsAtomic(a) then FinishAtomic(s, a.t, a.loc, r) else FinishNonAtomic(s, a.loc, r)
  }

  ghost function Step(s: State, a: Action): StepResult
    requires Enabled(s, a)
  {
    match a
    case Create(t, child) => StepResult(s.(g := ThreadCreated(s.g, t, child)), true)
    case Terminate(t) => StepResult(s.(g := ThreadTerminated(s.g, t)), true)
    case JoinThread(t, joinee) => StepResult(s.(g := ThreadJoined(s.g, t, joinee)), true)
    case ReleaseClock(t, token) =>
      StepResult(s.(g := IncrementOwn(s.g, t), tokens := s.tokens[token := ClocksOf(s.g, t).clock]), true)
    case AcquireClock(t, token) => StepResult(s.(g := AcquireInto(s.g, t, s.tokens[token])), true)
    case Fence(t, ord) => StepResult(s.(g := AtomicFence(s.g, t, ord)), true)
    case Allocate(t, loc, tracked) =>
      var c := if tracked then NewCell(At(ClocksOf(s.g, t).clock, ThreadIndex(s.g, t)), ThreadIndex(s.g, t))
               else NewCell(0, ThreadIndex(s.g, 0));
      StepResult(s.(cells := s.cells[loc := c]), true)
    case _ => if s.g.multiThreaded then AccessStep(s, a) else StepResult(s, true)
  }
}
