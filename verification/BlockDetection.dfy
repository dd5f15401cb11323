/** Non-atomic accesses to a range of bytes: the detector checks the blocks that `IterMut` yields,
    which gives the same verdict and the same shadow bytes as checking byte by byte. */
module BlockDetection {
  import opened VectorClocks
  import opened Actions
  import opened ShadowCells
  import opened RangeMaps
  import opened DedupRangeMaps
  import D = Detector

  type Check = Cell -> CellResult

  // The byte-wise reading.

  predicate AllOk(cells: seq<Cell>, lo: nat, hi: nat, check: Check)
    requires lo <= hi <= |cells|
  {
    forall i :: lo <= i < hi ==> check(cells[i]).ok
  }

  /** The array once the bytes from `lo` up to `hi` have been checked. */
  function Checked(cells: seq<Cell>, lo: nat, hi: nat, check: Check): (r: seq<Cell>)
    requires lo <= hi <= |cells|
    ensures |r| == |cells|
    ensures forall i :: 0 <= i < |r| ==> r[i] == if lo <= i < hi then check(cells[i]).cell else cells[i]
  {
    seq(|cells|, i requires 0 <= i < |cells| => if lo <= i < hi then check(cells[i]).cell else cells[i])
  }

  /** What checking the bytes from `offset` up to `end` one by one, up to the first failure at `bad`,
      makes of the array `was`. */
  predicate RangeChecked(
    was: seq<Cell>, now: seq<Cell>, offset: nat, end: nat, check: Check, ok: bool, bad: nat)
  {
    && offset <= end <= |was|
    && (ok <==> AllOk(was, offset, end, check))
    && (ok ==> now == Checked(was, offset, end, check))
    && (!ok ==> offset <= bad < end && !check(was[bad]).ok && AllOk(was, offset, bad, check) &&
                now == Checked(was, offset, bad, check))
  }

  /** One more block of equal bytes. */
  lemma CheckBlock(cells: seq<Cell>, offset: nat, pos: nat, next: nat, check: Check, data: Cell)
    requires offset <= pos < next <= |cells|
    requires forall o :: pos <= o < next ==> cells[o] == data
    ensures var part := Checked(cells, offset, pos, check);
      Checked(cells, offset, next, check) == part[..pos] + Repeat(check(data).cell, next - pos) + part[next..]
    ensures AllOk(cells, offset, next, check) <==> AllOk(cells, offset, pos, check) && check(data).ok
  {
    assert cells[pos] == data;
  }

  datatype MemoryKind =
    | RustHeap | MiriHeap | CHeap | WinHeap | WinLocal | Mmap | SocketAddress | Kernel | Stack
    | Global | MachineMemory | Runtime | ExternStatic | Tls | CallerLocation

  /** User-allocated and stack memory tracks its allocation; other memory is as old as the program. */
  predicate TracksAllocation(kind: MemoryKind) {
    match kind
    case Global => false
    case MachineMemory => false
    case Runtime => false
    case ExternStatic => false
    case Tls => false
    case CallerLocation => false
    case _ => true
  }

  /** A byte of new memory made by the thread with this clock and index. */
  function NewByte(kind: MemoryKind, clock: VClock, index: nat, mainIndex: nat): Cell {
    if TracksAllocation(kind) then NewCell(At(clock, index), index) else NewCell(0, mainIndex)
  }

  /** Any first access to new user or stack memory passes exactly when its thread has seen the
      allocation; other memory never fails because it was allocated. */
  lemma NewByteVerdict(
      kind: MemoryKind, clock: VClock, index: nat, mainIndex: nat, tc: ThreadClocks, i: nat, a: Attempt)
    ensures kind in {RustHeap, MiriHeap, CHeap, WinHeap, WinLocal, Mmap, SocketAddress, Kernel, Stack} ==>
      (Perform(NewByte(kind, clock, index, mainIndex), tc, i, a).ok <==> At(clock, index) <= At(tc.clock, index))
    ensures kind in {Global, MachineMemory, Runtime, ExternStatic, Tls, CallerLocation} ==>
      Perform(NewByte(kind, clock, index, mainIndex), tc, i, a).ok
  {
    var c := NewByte(kind, clock, index, mainIndex);
    match a
    case TryRead =>
    case TryWrite(_) =>
    case TryLoad(size, acquire) => LoadEffect(c, tc, i, size, acquire);
    case TryStore(size, release) => StoreEffect(c, tc, i, size, release);
    case TryRmw(size, acquire, release) => RmwEffect(c, tc, i, size, acquire, release);
  }

  /** A range of new memory is refused at its first byte, or passes whole. */
  lemma NewRangeVerdict(c: Cell, len: nat, now: seq<Cell>, offset: nat, end: nat, check: Check, ok: bool, bad: nat)
    requires offset < end <= len && RangeChecked(Repeat(c, len), now, offset, end, check, ok, bad)
    ensures ok <==> check(c).ok
    ensures !ok ==> bad == offset
  {
    assert Repeat(c, len)[offset] == c;
  }

  /** The shadow memory of one allocation. */
  class VClockAlloc {
    const allocRanges: DedupRangeMap<Cell>

    /** New memory of this kind, made by the thread with this clock and index. */
    constructor (len: nat, kind: MemoryKind, clock: VClock, index: nat, mainIndex: nat)
      ensures allocRanges.Valid() && fresh(allocRanges)
      ensures allocRanges.Contents() == Repeat(NewByte(kind, clock, index, mainIndex), len)
      ensures kind in {RustHeap, MiriHeap, CHeap, WinHeap, WinLocal, Mmap, SocketAddress, Kernel, Stack} ==>
        allocRanges.Contents() == Repeat(NewCell(At(clock, index), index), len)
      ensures kind in {Global, MachineMemory, Runtime, ExternStatic, Tls, CallerLocation} ==>
        allocRanges.Contents() == Repeat(NewCell(0, mainIndex), len)
    {
      var allocStamp, allocIndex := 0, mainIndex;
      if TracksAllocation(kind) {
        allocStamp, allocIndex := At(clock, index), index;
      }
      allocRanges := new DedupRangeMap(len, NewCell(allocStamp, allocIndex));
    }

    /** Checks every block of a range in place, up to the first failure at offset `bad`. */
    method CheckBlocks(offset: nat, len: nat, check: Check) returns (ok: bool, bad: nat)
      requires allocRanges.Valid() && offset + len <= |allocRanges.Contents()|
      requires forall c :: !check(c).ok ==> check(c).cell == c
      modifies allocRanges
      ensures allocRanges.Valid()
      ensures RangeChecked(old(allocRanges.Contents()), allocRanges.Contents(), offset, offset + len, check, ok, bad)
    {
      ghost var was := allocRanges.Contents();
      ChainEnd(allocRanges.v, 0, End(allocRanges.v, 0));
      var first, last := allocRanges.IterMut(offset, len);
      ok, bad := true, 0;
      var i := first;
      ghost var pos := offset;
      HalfwayStart(allocRanges.v, first, last, offset, offset + len, check);
      while i < last
        invariant first <= i <= last <= |allocRanges.v|
        invariant Halfway(allocRanges.v, was, i, last, offset, offset + len, pos, check)
      {
        ghost var before := allocRanges.v;
        var elem := allocRanges.v[i];
        BlockStep(before, was, i, last, offset, offset + len, pos, check);
        var r := check(elem.data);
        allocRanges.v := allocRanges.v[i := elem.(data := r.cell)];
        if !r.ok {
          assert allocRanges.v == before;
          return false, elem.start;
        }
        pos := elem.end;
        i := i + 1;
      }
      HalfwayDone(allocRanges.v, was, last, offset, offset + len, pos, check);
    }

    /** A non-atomic read of a range by the thread with this clock and index. */
    method ReadNonAtomic(detecting: bool, offset: nat, len: nat, clock: VClock, index: nat) returns (ok: bool, bad: nat)
      requires allocRanges.Valid() && offset + len <= |allocRanges.Contents()|
      modifies allocRanges
      ensures allocRanges.Valid()
      ensures !detecting ==> ok && allocRanges.v == old(allocRanges.v)
      ensures detecting ==> RangeChecked(
        old(allocRanges.Contents()), allocRanges.Contents(), offset, offset + len,
        (c: Cell) => NonAtomicRead(c, clock, index), ok, bad)
    {
      if !detecting {
        return true, 0;
      }
      ok, bad := CheckBlocks(offset, len, (c: Cell) => NonAtomicRead(c, clock, index));
    }

    /** A non-atomic write of a range by the thread with this clock and index. */
    method WriteNonAtomic(detecting: bool, offset: nat, len: nat, clock: VClock, index: nat, wt: NaWriteType)
      returns (ok: bool, bad: nat)
      requires allocRanges.Valid() && offset + len <= |allocRanges.Contents()|
      modifies allocRanges
      ensures allocRanges.Valid()
      ensures !detecting ==> ok && allocRanges.v == old(allocRanges.v)
      ensures detecting ==> RangeChecked(
        old(allocRanges.Contents()), allocRanges.Contents(), offset, offset + len,
        (c: Cell) => NonAtomicWrite(c, clock, index, wt), ok, bad)
    {
      if !detecting {
        return true, 0;
      }
      ok, bad := CheckBlocks(offset, len, (c: Cell) => NonAtomicWrite(c, clock, index, wt));
    }
  }

  /** The map while its blocks up to `i` of `last`, ending at `pos`, have been checked. */
  predicate Halfway(
    v: seq<Elem<Cell>>, was: seq<Cell>, i: nat, last: nat, offset: nat, end: nat, pos: nat, check: Check)
  {
    && Chain(v, 0, |was|) && End(v, 0) == |was|
    && i <= last <= |v| && offset <= pos <= end <= |was|
    && pos == (if i < last then v[i].start else end)
    && (i < last ==> v[last - 1].end == end)
    && AllOk(was, offset, pos, check)
    && Flat(v) == Checked(was, offset, pos, check)
  }

  lemma {:induction false} HalfwayStart(v: seq<Elem<Cell>>, first: nat, last: nat, offset: nat, end: nat, check: Check)
    requires Chain(v, 0, End(v, 0)) && End(v, 0) == |Flat(v)| && offset <= end <= |Flat(v)|
    requires if offset < end then first < last <= |v| && v[first].start == offset && v[last - 1].end == end
             else first == last <= |v|
    ensures Halfway(v, Flat(v), first, last, offset, end, offset, check)
  {
    assert Flat(v) == Checked(Flat(v), offset, offset, check);
  }

  lemma {:induction false} HalfwayDone(
      v: seq<Elem<Cell>>, was: seq<Cell>, last: nat, offset: nat, end: nat, pos: nat, check: Check)
    requires Halfway(v, was, last, last, offset, end, pos, check)
    ensures Chain(v, 0, End(v, 0)) && RangeChecked(was, Flat(v), offset, end, check, true, 0)
  {
  }

  lemma {:induction false} StretchOf<T>(v: seq<Elem<T>>, hi: nat, i: nat, last: nat)
    requires Chain(v, 0, hi) && i < last <= |v|
    ensures v[i].start < v[i].end <= v[last - 1].end <= hi
    ensures i + 1 < last ==> v[i + 1].start == v[i].end
    ensures i + 1 == last ==> v[i].end == v[last - 1].end
  {
    ChainElem(v, 0, hi, i);
    ChainElem(v, 0, hi, last - 1);
    if i + 1 < last {
      ChainSlice(v, 0, hi, i + 1, last);
      assert v[..last][|v[..last]| - 1] == v[last - 1];
      ChainEnd(v[i + 1..last], v[i].end, v[last - 1].end);
    }
  }

  /** Updating one block at `i` to its checked data checks exactly its bytes. */
  lemma {:induction false} BlockStep(
      v: seq<Elem<Cell>>, was: seq<Cell>, i: nat, last: nat, offset: nat, end: nat, pos: nat, check: Check)
    requires Halfway(v, was, i, last, offset, end, pos, check) && i < last
    ensures v[i].start == pos < v[i].end <= end && was[pos] == v[i].data
    ensures var next := v[i := v[i].(data := check(v[i].data).cell)];
      check(v[i].data).ok ==> Halfway(next, was, i + 1, last, offset, end, v[i].end, check)
    ensures !check(v[i].data).ok && check(v[i].data).cell == v[i].data ==>
      v[i := v[i].(data := check(v[i].data).cell)] == v && RangeChecked(was, Flat(v), offset, end, check, false, pos)
  {
    StretchOf(v, |was|, i, last);
    BlockOf(v, was, |was|, i, offset, pos, check);
    if check(v[i].data).ok {
      PassedBlock(v, was, i, last, offset, end, pos, check);
    }
  }

  lemma PassedBlock(
      v: seq<Elem<Cell>>, was: seq<Cell>, i: nat, last: nat, offset: nat, end: nat, pos: nat, check: Check)
    requires Halfway(v, was, i, last, offset, end, pos, check) && i < last && check(v[i].data).ok
    requires pos < v[i].end <= end && forall o :: pos <= o < v[i].end ==> was[o] == v[i].data
    ensures var next := v[i := v[i].(data := check(v[i].data).cell)];
      Halfway(next, was, i + 1, last, offset, end, v[i].end, check)
  {
    var next := v[i := v[i].(data := check(v[i].data).cell)];
    StretchOf(v, |was|, i, last);
    CheckBlock(was, offset, pos, v[i].end, check, v[i].data);
    Updated(v, |was|, i, check(v[i].data).cell);
    assert Flat(next) == Checked(was, offset, v[i].end, check);
    ChainEnd(next, 0, |was|);
  }

  /** The bytes of a block not reached yet all hold its data. */
  lemma {:induction false} BlockOf(v: seq<Elem<Cell>>, was: seq<Cell>, hi: nat, i: nat,
                                       offset: nat, pos: nat, check: Check)
    requires Chain(v, 0, hi) && i < |v| && hi == |was| && offset <= pos == v[i].start < v[i].end <= hi
    requires Flat(v) == Checked(was, offset, pos, check)
    ensures forall o :: pos <= o < v[i].end ==> was[o] == v[i].data
  {
    forall o | pos <= o < v[i].end ensures was[o] == v[i].data {
      FlatAt(v, 0, hi, i, o);
      assert Flat(v)[o] == was[o];
    }
  }

  lemma FlatOne<T>(e: Elem<T>)
    ensures Flat([e]) == Repeat(e.data, Width(e))
  {
    assert [e][1..] == [];
    assert Repeat(e.data, Width(e)) + [] == Repeat(e.data, Width(e));
  }

  lemma Updated(v: seq<Elem<Cell>>, hi: nat, i: nat, data: Cell)
    requires Chain(v, 0, hi) && i < |v|
    ensures v[i].start < v[i].end <= hi == |Flat(v)|
    ensures Chain(v[i := v[i].(data := data)], 0, hi)
    ensures Flat(v[i := v[i].(data := data)]) ==
      Flat(v)[..v[i].start] + Repeat(data, v[i].end - v[i].start) + Flat(v)[v[i].end..]
  {
    var e := v[i].(data := data);
    ChainElem(v, 0, hi, i);
    FlatOne(e);
    Overwrite(v, [e], i, i + 1, hi);
    assert v[i := e] == v[..i] + [e] + v[i + 1..];
  }

  // Bytes as locations of the detector.

  /** A series of steps up to the first failure. */
  ghost function Steps(s: D.State, acts: seq<Action>): D.StepResult
    decreases |acts|
  {
    if acts == [] then D.StepResult(s, true)
    else if !D.Enabled(s, acts[0]) then D.StepResult(s, false)
    else
      var r := D.Step(s, acts[0]);
      if r.ok then Steps(r.state, acts[1..]) else r
  }

  function ByteReads(t: nat, base: nat, n: nat): seq<Action> {
    seq(n, k requires 0 <= k => NaRead(t, base + k))
  }

  function ByteWrites(t: nat, base: nat, n: nat, wt: NaWriteType): seq<Action> {
    seq(n, k requires 0 <= k => NaWrite(t, base + k, wt))
  }

  predicate HasBytes(cells: map<nat, Cell>, base: nat, n: nat) {
    forall l: nat :: base <= l < base + n ==> l in cells
  }

  function BytesAt(cells: map<nat, Cell>, base: nat, n: nat): (r: seq<Cell>)
    requires HasBytes(cells, base, n)
    ensures |r| == n && forall k :: 0 <= k < n ==> r[k] == cells[base + k]
  {
    seq(n, k requires 0 <= k < n => cells[base + k])
  }

  /** What checking a range byte by byte must have done to the detector's state: the steps stop at the
      first byte that fails, `bad` bytes into the range, having changed exactly the bytes before it. */
  ghost predicate BytesChecked(s: D.State, r: D.StepResult, base: nat, n: nat, check: Check, bad: nat) {
    && r.state.g == s.g && r.state.tokens == s.tokens && r.state.cells.Keys == s.cells.Keys
    && HasBytes(s.cells, base, n) && HasBytes(r.state.cells, base, n)
    && RangeChecked(BytesAt(s.cells, base, n), BytesAt(r.state.cells, base, n), 0, n, check, r.ok, bad)
    && (forall l :: l in s.cells && !(base <= l < base + n) ==> r.state.cells[l] == s.cells[l])
  }

  lemma NoBytesChecked(s: D.State, base: nat, check: Check)
    ensures BytesChecked(s, D.StepResult(s, true), base, 0, check, 0)
  {
  }

  /** One byte in front of a checked range. */
  lemma OneMoreInFront(was: seq<Cell>, now: seq<Cell>, n: nat, check: Check, ok: bool, bad: nat)
    requires |was| == |now| == n > 0 && check(was[0]).ok && now[0] == check(was[0]).cell
    requires RangeChecked(was[1..], now[1..], 0, n - 1, check, ok, bad)
    ensures RangeChecked(was, now, 0, n, check, ok, bad + 1)
  {
    assert AllOk(was, 0, n, check) <==> AllOk(was[1..], 0, n - 1, check) by {
      assert forall k :: 0 < k < n ==> was[k] == was[1..][k - 1];
    }
    var upto := if ok then n else bad + 1;
    forall k | 0 <= k < n ensures now[k] == if k < upto then check(was[k]).cell else was[k] {
      if k > 0 {
        assert now[1..][k - 1] == now[k] && was[1..][k - 1] == was[k];
      }
    }
    assert now == Checked(was, 0, upto, check);
    assert !ok ==> forall k :: 0 < k < bad + 1 ==> was[k] == was[1..][k - 1];
  }

  /** One byte checked in the detector. */
  function ByteChecked(s: D.State, loc: nat, check: Check): D.StepResult
    requires loc in s.cells
  {
    D.StepResult(s.(cells := s.cells[loc := check(s.cells[loc]).cell]), check(s.cells[loc]).ok)
  }

  lemma FirstByteFails(s: D.State, base: nat, n: nat, check: Check)
    requires n > 0 && HasBytes(s.cells, base, n) && check(s.cells[base]) == CellResult(s.cells[base], false)
    ensures BytesChecked(s, ByteChecked(s, base, check), base, n, check, 0)
  {
    var was := BytesAt(s.cells, base, n);
    assert was[0] == s.cells[base];
    assert ByteChecked(s, base, check).state.cells == s.cells;
    assert was == Checked(was, 0, 0, check);
  }

  lemma FirstBytePasses(s: D.State, r: D.StepResult, base: nat, n: nat, check: Check, bad: nat)
    requires n > 0 && HasBytes(s.cells, base, n) && check(s.cells[base]).ok
    requires BytesChecked(ByteChecked(s, base, check).state, r, base + 1, n - 1, check, bad)
    ensures BytesChecked(s, r, base, n, check, bad + 1)
  {
    var first := ByteChecked(s, base, check);
    assert first.state.cells.Keys == s.cells.Keys;
    forall l: nat | base <= l < base + n ensures l in r.state.cells {
      assert l in s.cells.Keys;
    }
    var was, now := BytesAt(s.cells, base, n), BytesAt(r.state.cells, base, n);
    assert was[1..] == BytesAt(first.state.cells, base + 1, n - 1);
    assert now[1..] == BytesAt(r.state.cells, base + 1, n - 1);
    assert base in first.state.cells && r.state.cells[base] == first.state.cells[base];
    OneMoreInFront(was, now, n, check, r.ok, bad);
  }

  lemma ReadsByte(s: D.State, t: nat, loc: nat, tc: ThreadClocks, i: nat)
    requires s.g.multiThreaded && t < |s.g.threadInfo| && !D.Terminated(s.g, t) && loc in s.cells
    requires tc == D.ClocksOf(s.g, t) && i == D.ThreadIndex(s.g, t)
    ensures D.Enabled(s, NaRead(t, loc))
    ensures D.Step(s, NaRead(t, loc)) == ByteChecked(s, loc, ((c: Cell) => NonAtomicRead(c, tc.clock, i)))
  {
  }

  lemma {:induction false} ReadSteps(
      s: D.State, t: nat, base: nat, n: nat, tc: ThreadClocks, i: nat, check: Check, acts: seq<Action>) returns (bad: nat)
    requires s.g.multiThreaded && t < |s.g.threadInfo| && !D.Terminated(s.g, t) && HasBytes(s.cells, base, n)
    requires tc == D.ClocksOf(s.g, t) && i == D.ThreadIndex(s.g, t) && check == ((c: Cell) => NonAtomicRead(c, tc.clock, i))
    requires acts == ByteReads(t, base, n)
    ensures BytesChecked(s, Steps(s, acts), base, n, check, bad)
    decreases n
  {
    bad := 0;
    if n == 0 {
      NoBytesChecked(s, base, check);
    } else {
      ReadsByte(s, t, base, tc, i);
      assert acts[0] == NaRead(t, base) && acts[1..] == ByteReads(t, base + 1, n - 1);
      var first := ByteChecked(s, base, check);
      if first.ok {
        bad := ReadSteps(first.state, t, base + 1, n - 1, tc, i, check, acts[1..]);
        FirstBytePasses(s, Steps(s, acts), base, n, check, bad);
        bad := bad + 1;
      } else {
        FirstByteFails(s, base, n, check);
      }
    }
  }

  /** Allocating byte by byte in the detector gives the cells of a new `VClockAlloc`. */
  lemma AllocatesByte(s: D.State, t: nat, loc: nat, kind: MemoryKind, tracked: bool)
    requires D.Enabled(s, Allocate(t, loc, tracked))
    requires tracked <==> kind in {RustHeap, MiriHeap, CHeap, WinHeap, WinLocal, Mmap, SocketAddress, Kernel, Stack}
    ensures D.Step(s, Allocate(t, loc, tracked)).state.cells == s.cells[
      loc := NewByte(kind, D.ClocksOf(s.g, t).clock, D.ThreadIndex(s.g, t), D.ThreadIndex(s.g, 0))]
  {
  }

  /** Reading a range byte by byte in the detector gives the byte-wise verdict and cells, also when it
      fails: with `VClockAlloc.ReadNonAtomic`, the block-wise read agrees with the detector's steps. */
  lemma RangeReadIsByteSteps(s: D.State, t: nat, base: nat, n: nat) returns (bad: nat)
    requires s.g.multiThreaded && t < |s.g.threadInfo| && !D.Terminated(s.g, t) && HasBytes(s.cells, base, n)
    ensures var tc, i := D.ClocksOf(s.g, t), D.ThreadIndex(s.g, t);
      BytesChecked(s, Steps(s, ByteReads(t, base, n)), base, n, ((c: Cell) => NonAtomicRead(c, tc.clock, i)), bad)
  {
    var tc, i := D.ClocksOf(s.g, t), D.ThreadIndex(s.g, t);
    bad := ReadSteps(s, t, base, n, tc, i, ((c: Cell) => NonAtomicRead(c, tc.clock, i)), ByteReads(t, base, n));
  }

  lemma WritesByte(s: D.State, t: nat, loc: nat, wt: NaWriteType, tc: ThreadClocks, i: nat)
    requires s.g.multiThreaded && t < |s.g.threadInfo| && !D.Terminated(s.g, t) && loc in s.cells
    requires tc == D.ClocksOf(s.g, t) && i == D.ThreadIndex(s.g, t)
    ensures D.Enabled(s, NaWrite(t, loc, wt))
    ensures D.Step(s, NaWrite(t, loc, wt)) == ByteChecked(s, loc, ((c: Cell) => NonAtomicWrite(c, tc.clock, i, wt)))
  {
  }

  lemma {:induction false} WriteSteps(
      s: D.State, t: nat, base: nat, n: nat, wt: NaWriteType, tc: ThreadClocks, i: nat, check: Check, acts: seq<Action>) returns (bad: nat)
    requires s.g.multiThreaded && t < |s.g.threadInfo| && !D.Terminated(s.g, t) && HasBytes(s.cells, base, n)
    requires tc == D.ClocksOf(s.g, t) && i == D.ThreadIndex(s.g, t) && check == ((c: Cell) => NonAtomicWrite(c, tc.clock, i, wt))
    requires acts == ByteWrites(t, base, n, wt)
    ensures BytesChecked(s, Steps(s, acts), base, n, check, bad)
    decreases n
  {
    bad := 0;
    if n == 0 {
      NoBytesChecked(s, base, check);
    } else {
      WritesByte(s, t, base, wt, tc, i);
      assert acts[0] == NaWrite(t, base, wt) && acts[1..] == ByteWrites(t, base + 1, n - 1, wt);
      var first := ByteChecked(s, base, check);
      if first.ok {
        bad := WriteSteps(first.state, t, base + 1, n - 1, wt, tc, i, check, acts[1..]);
        FirstBytePasses(s, Steps(s, acts), base, n, check, bad);
        bad := bad + 1;
      } else {
        FirstByteFails(s, base, n, check);
      }
    }
  }

  /** The same for writes. */
  lemma RangeWriteIsByteSteps(s: D.State, t: nat, base: nat, n: nat, wt: NaWriteType) returns (bad: nat)
    requires s.g.multiThreaded && t < |s.g.threadInfo| && !D.Terminated(s.g, t) && HasBytes(s.cells, base, n)
    ensures var tc, i := D.ClocksOf(s.g, t), D.ThreadIndex(s.g, t);
      BytesChecked(s, Steps(s, ByteWrites(t, base, n, wt)), base, n, ((c: Cell) => NonAtomicWrite(c, tc.clock, i, wt)), bad)
  {
    var tc, i := D.ClocksOf(s.g, t), D.ThreadIndex(s.g, t);
    bad := WriteSteps(s, t, base, n, wt, tc, i, ((c: Cell) => NonAtomicWrite(c, tc.clock, i, wt)), ByteWrites(t, base, n, wt));
  }

  /** The first failure is one and the same, however the range was checked. */
  lemma OneFirstFailure(all: seq<Cell>, part: seq<Cell>, offset: nat, n: nat, check: Check,
                        ok: bool, bad: nat, now: seq<Cell>, ok': bool, bad': nat, now': seq<Cell>)
    requires offset + n <= |all| && part == all[offset..offset + n]
    requires RangeChecked(all, now, offset, offset + n, check, ok, bad)
    requires RangeChecked(part, now', 0, n, check, ok', bad')
    ensures ok == ok' && (!ok ==> bad == offset + bad')
  {
    forall k | 0 <= k < n ensures part[k] == all[offset + k] {
    }
    if !ok {
      assert !check(part[bad - offset]).ok;
    }
    if !ok' {
      assert !check(all[offset + bad']).ok;
    }
  }

  /** Checking part of an array up to some byte changes the array in that part only. */
  lemma CheckedInPlace(all: seq<Cell>, offset: nat, n: nat, upto: nat, check: Check)
    requires offset + n <= |all| && upto <= n
    ensures Checked(all, offset, offset + upto, check) ==
      all[..offset] + Checked(all[offset..offset + n], 0, upto, check) + all[offset + n..]
  {
  }

  lemma PartInPlace(
      s: D.State, r: D.StepResult, base: nat, size: nat, offset: nat, n: nat)
    requires HasBytes(s.cells, base, size) && offset + n <= size && r.state.cells.Keys == s.cells.Keys
    requires forall l :: l in s.cells && !(base + offset <= l < base + offset + n) ==> r.state.cells[l] == s.cells[l]
    ensures HasBytes(s.cells, base + offset, n) && HasBytes(r.state.cells, base + offset, n) && HasBytes(r.state.cells, base, size)
    ensures BytesAt(s.cells, base + offset, n) == BytesAt(s.cells, base, size)[offset..offset + n]
    ensures BytesAt(r.state.cells, base, size) == BytesAt(s.cells, base, size)[..offset] +
      BytesAt(r.state.cells, base + offset, n) + BytesAt(s.cells, base, size)[offset + n..]
  {
    assert forall l: nat :: base <= l < base + size ==> l in s.cells && l in r.state.cells.Keys;
  }

  /** The block-wise check of part of an allocation at `base` and the byte steps of the detector give
      the same verdict, stop at the same byte, and leave the same bytes in the whole allocation. */
  lemma BlocksAgreeWithSteps(
      s: D.State, r: D.StepResult, base: nat, size: nat, offset: nat, n: nat, check: Check,
      now: seq<Cell>, ok: bool, bad: nat, bad': nat)
    requires HasBytes(s.cells, base, size) && offset + n <= size
    requires BytesChecked(s, r, base + offset, n, check, bad')
    requires RangeChecked(BytesAt(s.cells, base, size), now, offset, offset + n, check, ok, bad)
    ensures ok == r.ok && (!ok ==> bad == offset + bad')
    ensures HasBytes(r.state.cells, base, size) && now == BytesAt(r.state.cells, base, size)
  {
    var all, part := BytesAt(s.cells, base, size), BytesAt(s.cells, base + offset, n);
    var part' := BytesAt(r.state.cells, base + offset, n);
    PartInPlace(s, r, base, size, offset, n);
    OneFirstFailure(all, part, offset, n, check, ok, bad, now, r.ok, bad', part');
    CheckedInPlace(all, offset, n, if ok then n else bad', check);
  }
}
