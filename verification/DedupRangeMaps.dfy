/** The range map itself, updated in place. */
module DedupRangeMaps {
  import opened RangeMaps

  class DedupRangeMap<T(==)> {
    var v: seq<Elem<T>>

    ghost predicate Valid()
      reads this
    {
      Chain(v, 0, End(v, 0))
    }

    /** The plain array of data this map stands for. */
    ghost function Contents(): seq<T>
      reads this
    {
      Flat(v)
    }

    constructor (size: nat, init: T)
      ensures Valid() && End(v, 0) == size && Contents() == Repeat(init, size) && NoEqualNeighbours(v)
    {
      v := if size > 0 then [Elem(0, size, init)] else [];
      new;
      if size > 0 {
        assert v[1..] == [] && Flat(v) == Repeat(init, size) + [];
      }
    }

    method Size() returns (size: nat)
      requires Valid()
      ensures size == |Contents()|
    {
      size := if v == [] then 0 else v[|v| - 1].end;
      ChainEnd(v, 0, End(v, 0));
    }

    /** Binary search for the block containing `offset`. */
    method FindOffset(offset: nat) returns (index: nat)
      requires Valid() && offset < End(v, 0)
      ensures index < |v| && v[index].start <= offset < v[index].end
    {
      var lo, hi := 0, |v|;
      ChainElem(v, 0, End(v, 0), 0);
      ChainElem(v, 0, End(v, 0), |v| - 1);
      while true
        invariant 0 <= lo < hi <= |v|
        invariant v[lo].start <= offset < v[hi - 1].end
        decreases hi - lo
      {
        var mid := (lo + hi) / 2;
        if offset < v[mid].start {
          ChainElem(v, 0, End(v, 0), mid - 1);
          hi := mid;
        } else if offset >= v[mid].end {
          ChainElem(v, 0, End(v, 0), mid);
          lo := mid + 1;
        } else {
          return mid;
        }
      }
    }

    /** The array, as seen by a lookup: the block that `FindOffset` finds holds the offset's data. */
    lemma Lookup(index: nat, offset: nat)
      requires Valid() && index < |v| && v[index].start <= offset < v[index].end
      ensures offset < |Contents()| && Contents()[offset] == v[index].data
    {
      FlatAt(v, 0, End(v, 0), index, offset);
    }

    /** The blocks overlapping `[offset, offset + len)`, unsplit. */
    method Iter(offset: nat, len: nat) returns (blocks: seq<Elem<T>>)
      requires Valid() && offset + len <= End(v, 0)
      ensures len == 0 ==> blocks == []
      ensures forall e :: e in blocks ==> e in v
      ensures len > 0 ==> blocks != [] && Chain(blocks, blocks[0].start, End(blocks, 0))
      ensures len > 0 ==> blocks[0].start <= offset < blocks[0].end && blocks[|blocks| - 1].start < offset + len <= End(blocks, 0)
    {
      if len == 0 {
        return [];
      }
      var first := FindOffset(offset);
      var i := first;
      while i < |v| && v[i].start < offset + len
        invariant first <= i <= |v|
        invariant i > first ==> v[i - 1].start < offset + len
      {
        i := i + 1;
      }
      ChainElem(v, 0, End(v, 0), i - 1);
      ChainSlice(v, 0, End(v, 0), first, i);
      blocks := v[first..i];
      assert v[..i][|v[..i]| - 1] == v[i - 1];
    }

    /** Splits block `index` so that a block starts at `at`; nothing to do at its edges. */
    method SplitIndex(index: nat, at: nat) returns (split: bool)
      requires Valid() && index < |v| && v[index].start <= at <= v[index].end
      modifies this
      ensures Valid() && Contents() == old(Contents()) && End(v, 0) == old(End(v, 0))
      ensures split <==> old(v[index].start) < at < old(v[index].end)
      ensures !split ==> v == old(v)
      ensures split ==> v == old(v)[..index] + [old(v)[index].(end := at), old(v)[index].(start := at)] + old(v)[index + 1..]
    {
      var elem := v[index];
      if at == elem.start || at == elem.end {
        return false;
      }
      var hi := End(v, 0);
      assert v[index..index + 1] == [elem];
      SplitDenotes(elem, at);
      Replace(v, [elem.(end := at), elem.(start := at)], index, index + 1, hi);
      v := v[..index] + [elem.(end := at), elem.(start := at)] + v[index + 1..];
      ChainEnd(v, 0, hi);
      return true;
    }

    /** Removes the equal blocks `[since, end)` but the first, which takes over their range. */
    method MergeRun(since: nat, end: nat)
      requires Valid() && since < end <= |v|
      requires forall k :: since <= k < end ==> v[k].data == v[since].data
      modifies this
      ensures Valid() && Contents() == old(Contents()) && End(v, 0) == old(End(v, 0))
      ensures v == old(v)[..since] + [old(v)[since].(end := old(v)[end - 1].end)] + old(v)[end..]
    {
      var hi := End(v, 0);
      var w := v[since..end];
      ChainSlice(v, 0, hi, since, end);
      assert v[..end][|v[..end]| - 1] == v[end - 1];
      assert forall k :: 0 <= k < |w| ==> w[k].data == v[since + k].data;
      MergeDenotes(w, v[since].start, v[end - 1].end);
      Replace(v, [v[since].(end := v[end - 1].end)], since, end, hi);
      v := v[..since] + [v[since].(end := v[end - 1].end)] + v[end..];
      ChainEnd(v, 0, hi);
    }

    /** Ends a run of equal blocks at `end`: they become one, and `removed` blocks are gone. */
    method EndRun(first: nat, since: nat, end: nat) returns (removed: nat)
      requires Valid() && first <= since < end <= |v| && SameData(v, since, end)
      modifies this
      ensures Valid() && Contents() == old(Contents()) && End(v, 0) == old(End(v, 0))
      ensures removed == end - since - 1 && RunEnded(old(v), v, since, end)
    {
      removed := end - since - 1;
      if removed > 0 {
        MergeRun(since, end);
      } else {
        assert v == v[..since] + [v[since].(end := v[end - 1].end)] + v[end..];
      }
    }

    /** The scan inside `IterMut`: from block `first` to the block that reaches `until`, merging
        runs of equal blocks on the way until three runs in excess could not be merged. So at least
        the first three runs are merged. */
    method ScanAndMerge(first: nat, until: nat) returns (last: nat)
      requires Valid() && first < |v| && v[first].start < until <= End(v, 0)
      modifies this
      ensures Valid() && Contents() == old(Contents()) && End(v, 0) == old(End(v, 0))
      ensures first < last <= |v| <= old(|v|) && v[first].start == old(v[first].start)
      ensures v[last - 1].start < until <= v[last - 1].end
      ensures RunsMerged(v, first, last)
    {
      ghost var hi := End(v, 0);
      var since, budget := first, 3;
      last := first;
      while true
        invariant Valid() && Contents() == old(Contents()) && End(v, 0) == hi
        invariant Scanning(v, first, since, last, budget, until)
        invariant |v| <= old(|v|) && v[first].start == old(v[first].start)
        decreases |v| - last
      {
        ChainElem(v, 0, hi, last);
        var done := v[last].end >= until;
        last := last + 1;
        if budget > 0 && (done || v[last].data != v[since].data) {
          ghost var before, end, was := v, last, budget;
          var removed := EndRun(first, since, last);
          last := last - removed;
          budget := if removed > 0 then budget + removed else budget - 1;
          RunMerged(before, v, first, since, end, was, budget, until, done);
          since := last;
        }
        ChainElem(v, 0, hi, last - 1);
        if done {
          break;
        }
      }
      MergedFar(v, first, since, last, budget, until);
    }

    /** Makes a block start at `offset`. */
    method SplitStart(offset: nat) returns (first: nat)
      requires Valid() && offset < End(v, 0)
      modifies this
      ensures Valid() && Contents() == old(Contents()) && End(v, 0) == old(End(v, 0))
      ensures first < |v| <= old(|v|) + 1 && v[first].start == offset
    {
      first := FindOffset(offset);
      var split := SplitIndex(first, offset);
      if split {
        first := first + 1;
      }
    }

    /** Makes block `last - 1` end at `until`. */
    method SplitEnd(first: nat, last: nat, until: nat)
      requires Valid() && first < last <= |v| && v[last - 1].start < until <= v[last - 1].end && RunsMerged(v, first, last)
      modifies this
      ensures Valid() && Contents() == old(Contents()) && End(v, 0) == old(End(v, 0))
      ensures last <= |v| <= old(|v|) + 1 && v[last - 1].end == until && v[first].start == old(v[first].start)
      ensures RunsMerged(v, first, last)
    {
      ghost var was := v;
      var split := SplitIndex(last - 1, until);
      if split {
        MergedKept(was, v, first, last, [was[last - 1].(end := until), was[last - 1].(start := until)]);
      }
    }

    /** Prepares in-place mutation of `[offset, offset + len)`: the blocks `[first, last)` cover
        exactly this range. Meaning is untouched, and at most two blocks are added. */
    method IterMut(offset: nat, len: nat) returns (first: nat, last: nat)
      requires Valid() && (len > 0 ==> offset + len <= End(v, 0))
      modifies this
      ensures Valid() && Contents() == old(Contents()) && End(v, 0) == old(End(v, 0))
      ensures first <= last <= |v| <= old(|v|) + 2
      ensures len == 0 ==> first == last && v == old(v)
      ensures len > 0 ==> first < last && v[first].start == offset && v[last - 1].end == offset + len
      ensures len > 0 ==> Chain(v[first..last], offset, offset + len) && RunsMerged(v, first, last)
    {
      if len == 0 {
        return 0, 0;
      }
      first := SplitStart(offset);
      last := ScanAndMerge(first, offset + len);
      SplitEnd(first, last, offset + len);
      ChainSlice(v, 0, End(v, 0), first, last);
      assert v[..last][|v[..last]| - 1] == v[last - 1];
    }

    /** Joins all equal neighbours. */
    method MergeAdjacentThorough()
      requires Valid()
      modifies this
      ensures Valid() && Contents() == old(Contents()) && End(v, 0) == old(End(v, 0))
      ensures NoEqualNeighbours(v)
    {
      ghost var hi := End(v, 0);
      var was := v;
      var clean: seq<Elem<T>> := [];
      var i := 0;
      assert [] + was[0..] == was;
      while i < |was|
        invariant 0 <= i <= |was|
        invariant Cleaned(clean, was, i, hi)
      {
        var elem := was[i];
        if clean != [] && clean[|clean| - 1].data == elem.data {
          var prev := clean[|clean| - 1];
          CleanMerge(clean, was, i, hi);
          clean := clean[..|clean| - 1] + [prev.(end := elem.end)];
        } else {
          CleanPush(clean, was, i, hi);
          clean := clean + [elem];
        }
        i := i + 1;
      }
      assert clean + was[i..] == clean;
      v := clean;
      ChainEnd(v, 0, hi);
    }
  }

  predicate SameData<T(==)>(v: seq<Elem<T>>, since: nat, end: nat) {
    since < end <= |v| && forall k :: since <= k < end ==> v[k].data == v[since].data
  }

  predicate Differ<T(==)>(v: seq<Elem<T>>, k: nat) {
    k + 1 < |v| ==> v[k].data != v[k + 1].data
  }

  /** The blocks `[first, since)` differ from what follows them, as far as block `last`. */
  predicate Apart<T(==)>(v: seq<Elem<T>>, first: nat, since: nat, last: nat) {
    first <= since <= last <= |v| && forall k :: first <= k < since && k + 1 < last ==> Differ(v, k)
  }

  /** Among the blocks from `first` to `last`, the first three differ from what follows them. */
  predicate RunsMerged<T(==)>(v: seq<Elem<T>>, first: nat, last: nat) {
    last <= |v| && forall k :: first <= k < first + 3 && k + 1 < last ==> Differ(v, k)
  }

  lemma MergedKept<T>(was: seq<Elem<T>>, now: seq<Elem<T>>, first: nat, last: nat, pair: seq<Elem<T>>)
    requires 0 < last <= |was| && RunsMerged(was, first, last)
    requires |pair| == 2 && pair[0].data == was[last - 1].data && now == was[..last - 1] + pair + was[last..]
    ensures RunsMerged(now, first, last)
  {
    forall k | first <= k < first + 3 && k + 1 < last ensures Differ(now, k) {
      assert Differ(was, k);
    }
  }

  /** The scan at block `last`, in a run that began at `since`, with every run before it merged. */
  predicate Scanning<T(==)>(v: seq<Elem<T>>, first: nat, since: nat, last: nat, budget: nat, until: nat) {
    && first <= since <= last < |v| && v[since].start < until && v[last].start < until
    && (budget > 0 ==> SameData(v, since, last + 1))
    && Apart(v, first, since, |v|) && since - first + budget >= 3
  }

  predicate RunEnded<T(==)>(was: seq<Elem<T>>, now: seq<Elem<T>>, since: nat, end: nat) {
    since < end <= |was| && now == was[..since] + [was[since].(end := was[end - 1].end)] + was[end..]
  }

  /** A run that became one block differs from the next block, and the scan goes on there. */
  lemma RunMerged<T>(
      was: seq<Elem<T>>, now: seq<Elem<T>>, first: nat, since: nat, end: nat, budget: nat, budget': nat, until: nat, done: bool)
    requires 0 < end && Scanning(was, first, since, end - 1, budget, until) && budget > 0 && RunEnded(was, now, since, end)
    requires done <==> was[end - 1].end >= until
    requires !done ==> end < |was| && was[end].data != was[since].data && was[end].start < until
    requires budget' == if end - since - 1 > 0 then budget + (end - since - 1) else budget - 1
    ensures |now| == |was| - (end - since - 1) && now[first].start == was[first].start
    ensures now[since].start < until && (now[since].end >= until <==> done)
    ensures if done then Apart(now, first, since + 1, since + 1) else Scanning(now, first, since + 1, since + 1, budget', until)
  {
    var next := since + 1;
    assert forall k :: 0 <= k < since ==> now[k] == was[k];
    forall k | first <= k < next && k + 1 < (if done then next else |now|) ensures Differ(now, k) {
      assert k < since ==> Differ(was, k);
    }
  }

  /** When the scan has ended: either every run is merged, or three are. */
  lemma MergedFar<T>(v: seq<Elem<T>>, first: nat, since: nat, last: nat, budget: nat, until: nat)
    requires last <= |v| && (since == last || since - first >= 3) && Apart(v, first, since, last)
    ensures RunsMerged(v, first, last)
  {
  }

  /** The blocks cleaned so far and those left denote the map, and the former are canonical. */
  predicate Cleaned<T(==)>(clean: seq<Elem<T>>, was: seq<Elem<T>>, i: nat, hi: nat)
    requires i <= |was|
  {
    Chain(clean + was[i..], 0, hi) && Flat(clean + was[i..]) == Flat(was) && NoEqualNeighbours(clean)
  }

  lemma CleanPush<T>(clean: seq<Elem<T>>, was: seq<Elem<T>>, i: nat, hi: nat)
    requires i < |was| && Cleaned(clean, was, i, hi)
    requires clean == [] || clean[|clean| - 1].data != was[i].data
    ensures Cleaned(clean + [was[i]], was, i + 1, hi)
  {
    assert clean + was[i..] == (clean + [was[i]]) + was[i + 1..];
  }

  lemma CleanMerge<T>(clean: seq<Elem<T>>, was: seq<Elem<T>>, i: nat, hi: nat)
    requires i < |was| && Cleaned(clean, was, i, hi) && clean != [] && clean[|clean| - 1].data == was[i].data
    ensures Cleaned(clean[..|clean| - 1] + [clean[|clean| - 1].(end := was[i].end)], was, i + 1, hi)
  {
    assert was[i..] == [was[i]] + was[i + 1..];
    MergeStep(clean, was[i], was[i + 1..], hi);
  }

  /** Extending the last clean block over an equal one. */
  lemma {:induction false} MergeStep<T>(clean: seq<Elem<T>>, elem: Elem<T>, rest: seq<Elem<T>>, hi: nat)
    requires clean != [] && Chain(clean + ([elem] + rest), 0, hi) && clean[|clean| - 1].data == elem.data
    ensures var merged := clean[..|clean| - 1] + [clean[|clean| - 1].(end := elem.end)];
      Chain(merged + rest, 0, hi) && Flat(merged + rest) == Flat(clean + ([elem] + rest))
  {
    var n := |clean| - 1;
    var all := clean + ([elem] + rest);
    var w := [clean[n], elem];
    assert all[n..n + 2] == w && all[n + 2..] == rest && all[..n] == clean[..n];
    ChainSlice(all, 0, hi, n, n + 2);
    assert all[..n + 2][|all[..n + 2]| - 1] == elem;
    MergeDenotes(w, clean[n].start, elem.end);
    Replace(all, [clean[n].(end := elem.end)], n, n + 2, hi);
  }
}
