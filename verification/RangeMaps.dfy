/** Run-length maps from offsets to data: a list of nonempty, adjoining blocks from 0 to the size. */
module RangeMaps {

  datatype Elem<T> = Elem(start: nat, end: nat, data: T)

  /** The blocks of `v` adjoin, are nonempty, and lead from `lo` to `hi`. */
  predicate Chain<T>(v: seq<Elem<T>>, lo: nat, hi: nat) {
    if v == [] then lo == hi
    else v[0].start == lo && lo < v[0].end && Chain(v[1..], v[0].end, hi)
  }

  function End<T>(v: seq<Elem<T>>, lo: nat): nat {
    if v == [] then lo else v[|v| - 1].end
  }

  function Repeat<T>(x: T, n: nat): (r: seq<T>)
    ensures |r| == n && forall i :: 0 <= i < n ==> r[i] == x
  {
    seq(n, _ => x)
  }

  function Width<T>(e: Elem<T>): nat {
    if e.start <= e.end then e.end - e.start else 0
  }

  /** The plain array that the blocks stand for. */
  function Flat<T>(v: seq<Elem<T>>): seq<T> {
    if v == [] then [] else Repeat(v[0].data, Width(v[0])) + Flat(v[1..])
  }

  // Chains and their arrays, piece by piece.

  lemma {:induction false} ChainConcat<T>(a: seq<Elem<T>>, b: seq<Elem<T>>, lo: nat, hi: nat)
    ensures Chain(a + b, lo, hi) <==> Chain(a, lo, End(a, lo)) && Chain(b, End(a, lo), hi)
  {
    if a == [] {
      assert a + b == b;
    } else {
      assert (a + b)[1..] == a[1..] + b;
      ChainConcat(a[1..], b, a[0].end, hi);
      assert End(a, lo) == End(a[1..], a[0].end);
    }
  }

  lemma {:induction false} FlatConcat<T>(a: seq<Elem<T>>, b: seq<Elem<T>>)
    ensures Flat(a + b) == Flat(a) + Flat(b)
  {
    if a == [] {
      assert a + b == b;
    } else {
      assert (a + b)[1..] == a[1..] + b;
      FlatConcat(a[1..], b);
    }
  }

  lemma {:induction false} ChainEnd<T>(v: seq<Elem<T>>, lo: nat, hi: nat)
    requires Chain(v, lo, hi)
    ensures End(v, lo) == hi && lo <= hi && (v != [] ==> lo < hi) && |Flat(v)| == hi - lo
  {
    if v != [] {
      ChainEnd(v[1..], v[0].end, hi);
    }
  }

  /** Any stretch of a chain is a chain. */
  lemma {:induction false} ChainSlice<T>(v: seq<Elem<T>>, lo: nat, hi: nat, i: nat, j: nat)
    requires Chain(v, lo, hi) && i <= j <= |v|
    ensures Chain(v[..i], lo, End(v[..i], lo)) && Chain(v[j..], End(v[..j], lo), hi)
    ensures Chain(v[i..j], End(v[..i], lo), End(v[..j], lo))
    ensures i < j ==> End(v[..i], lo) == v[i].start
  {
    assert v[..i] + v[i..] == v && v[i..j] + v[j..] == v[i..] && v[..j] + v[j..] == v;
    ChainConcat(v[..i], v[i..], lo, hi);
    ChainConcat(v[i..j], v[j..], End(v[..i], lo), hi);
    ChainConcat(v[..j], v[j..], lo, hi);
  }

  lemma {:induction false} ChainElem<T>(v: seq<Elem<T>>, lo: nat, hi: nat, i: nat)
    requires Chain(v, lo, hi) && i < |v|
    ensures lo <= v[i].start < v[i].end <= hi
    ensures i + 1 < |v| ==> v[i].end == v[i + 1].start
    ensures i + 1 == |v| ==> v[i].end == hi
    ensures i == 0 ==> v[i].start == lo
  {
    ChainSlice(v, lo, hi, i, i + 1);
    ChainEnd(v[..i], lo, v[i].start);
    ChainEnd(v[i + 1..], v[i].end, hi);
    assert v[i..i + 1] == [v[i]];
    assert i + 1 < |v| ==> v[i + 1..][0] == v[i + 1];
  }

  /** Replacing a stretch by one that denotes the same keeps the whole map's meaning. */
  lemma {:induction false} Replace<T>(v: seq<Elem<T>>, w: seq<Elem<T>>, i: nat, j: nat, hi: nat)
    requires Chain(v, 0, hi) && i < j <= |v| && w != []
    requires Chain(w, v[i].start, v[j - 1].end) && Flat(w) == Flat(v[i..j])
    ensures Chain(v[..i] + w + v[j..], 0, hi) && Flat(v[..i] + w + v[j..]) == Flat(v)
  {
    ChainSlice(v, 0, hi, i, j);
    ChainConcat(v[..i] + w, v[j..], 0, hi);
    ChainConcat(v[..i], w, 0, v[j - 1].end);
    ChainEnd(w, v[i].start, v[j - 1].end);
    FlatConcat(v[..i] + w, v[j..]);
    FlatConcat(v[..i], w);
    assert v == v[..i] + v[i..j] + v[j..];
    FlatConcat(v[..i] + v[i..j], v[j..]);
    FlatConcat(v[..i], v[i..j]);
  }

  /** A stretch of equal blocks denotes the same as one block over all of it. */
  lemma {:induction false} MergeDenotes<T>(w: seq<Elem<T>>, lo: nat, hi: nat)
    requires w != [] && Chain(w, lo, hi) && forall k :: 0 <= k < |w| ==> w[k].data == w[0].data
    ensures Chain([w[0].(end := hi)], lo, hi) && Flat([w[0].(end := hi)]) == Flat(w)
  {
    ChainEnd(w, lo, hi);
    var one := [w[0].(end := hi)];
    assert one[1..] == [];
    if |w| == 1 {
      assert w[1..] == [] && one == w;
    } else {
      MergeDenotes(w[1..], w[0].end, hi);
      assert Flat([w[1..][0].(end := hi)]) == Repeat(w[0].data, hi - w[0].end) + Flat([w[1..][0].(end := hi)][1..]);
      assert Flat(w) == Repeat(w[0].data, Width(w[0])) + Repeat(w[0].data, hi - w[0].end);
    }
  }

  /** The array of a map in three parts around a stretch. */
  lemma {:induction false} Parts<T>(v: seq<Elem<T>>, i: nat, j: nat, hi: nat)
    requires Chain(v, 0, hi) && i < j <= |v|
    ensures v[i].start < v[j - 1].end <= hi == |Flat(v)|
    ensures Flat(v)[..v[i].start] == Flat(v[..i]) && Flat(v)[v[j - 1].end..] == Flat(v[j..])
  {
    ChainSlice(v, 0, hi, i, j);
    assert End(v[..j], 0) == v[j - 1].end;
    ChainEnd(v[..i], 0, v[i].start);
    ChainEnd(v[i..j], v[i].start, v[j - 1].end);
    ChainEnd(v[j..], v[j - 1].end, hi);
    assert v == v[..i] + v[i..j] + v[j..];
    FlatConcat(v[..i] + v[i..j], v[j..]);
    FlatConcat(v[..i], v[i..j]);
  }

  /** Replacing a stretch by one over the same range changes exactly that range. */
  lemma {:induction false} Overwrite<T>(v: seq<Elem<T>>, w: seq<Elem<T>>, i: nat, j: nat, hi: nat)
    requires Chain(v, 0, hi) && i < j <= |v| && w != [] && Chain(w, v[i].start, v[j - 1].end)
    ensures v[i].start <= v[j - 1].end <= hi == |Flat(v)|
    ensures Chain(v[..i] + w + v[j..], 0, hi)
    ensures Flat(v[..i] + w + v[j..]) == Flat(v)[..v[i].start] + Flat(w) + Flat(v)[v[j - 1].end..]
  {
    Parts(v, i, j, hi);
    ChainSlice(v, 0, hi, i, j);
    ChainEnd(w, v[i].start, v[j - 1].end);
    assert End(v[..j], 0) == v[j - 1].end == End(v[..i] + w, 0);
    ChainConcat(v[..i] + w, v[j..], 0, hi);
    ChainConcat(v[..i], w, 0, v[j - 1].end);
    FlatConcat(v[..i] + w, v[j..]);
    FlatConcat(v[..i], w);
  }

  /** One block cut in two. */
  lemma SplitDenotes<T>(e: Elem<T>, at: nat)
    requires e.start < at < e.end
    ensures Chain([e.(end := at), e.(start := at)], e.start, e.end)
    ensures Flat([e.(end := at), e.(start := at)]) == Flat([e])
  {
    var w := [e.(end := at), e.(start := at)];
    assert w[1..] == [e.(start := at)] && w[1..][1..] == [];
    assert Chain(w, e.start, e.end);
    MergeDenotes(w, e.start, e.end);
    assert w[0].(end := e.end) == e;
  }

  // Point lookups.

  lemma {:induction false} FlatAt<T>(v: seq<Elem<T>>, lo: nat, hi: nat, i: nat, offset: nat)
    requires Chain(v, lo, hi) && i < |v| && v[i].start <= offset < v[i].end
    ensures lo <= offset < hi && |Flat(v)| == hi - lo && Flat(v)[offset - lo] == v[i].data
  {
    ChainEnd(v, lo, hi);
    ChainEnd(v[1..], v[0].end, hi);
    if i > 0 {
      FlatAt(v[1..], v[0].end, hi, i - 1, offset);
    }
  }

  // Canonical forms.

  predicate NoEqualNeighbours<T(==)>(v: seq<Elem<T>>) {
    forall i :: 0 <= i < |v| - 1 ==> v[i].data != v[i + 1].data
  }

  /** A canonical chain's first block is as wide as the run of its data. */
  lemma {:induction false} FirstRun<T>(v: seq<Elem<T>>, w: seq<Elem<T>>, lo: nat, hi: nat)
    requires Chain(v, lo, hi) && Chain(w, lo, hi) && v != [] && w != [] && Flat(v) == Flat(w)
    requires NoEqualNeighbours(v)
    ensures v[0].data == w[0].data && w[0].end <= v[0].end
  {
    assert Flat(v)[0] == v[0].data && Flat(w)[0] == w[0].data;
    ChainEnd(v, lo, hi);
    ChainEnd(w, lo, hi);
    ChainEnd(w[1..], w[0].end, hi);
    ChainEnd(v[1..], v[0].end, hi);
    var n := Width(v[0]);
    assert forall k :: 0 <= k < Width(w[0]) ==> Flat(w)[k] == w[0].data;
    if |v| > 1 {
      assert Flat(v)[n] == Flat(v[1..])[0] == v[1].data;
      assert v[0].data != v[0 + 1].data;
    }
  }

  lemma {:induction false} CanonicalUnique<T>(v: seq<Elem<T>>, w: seq<Elem<T>>, lo: nat, hi: nat)
    requires Chain(v, lo, hi) && Chain(w, lo, hi) && NoEqualNeighbours(v) && NoEqualNeighbours(w)
    requires Flat(v) == Flat(w)
    ensures v == w
    decreases |v|
  {
    ChainEnd(v, lo, hi);
    ChainEnd(w, lo, hi);
    if v != [] && w != [] {
      FirstRun(v, w, lo, hi);
      FirstRun(w, v, lo, hi);
      assert v[0] == w[0];
      FlatTail(v, w);
      CanonicalUnique(v[1..], w[1..], v[0].end, hi);
      assert v == [v[0]] + v[1..] && w == [w[0]] + w[1..];
    }
  }

  lemma {:induction false} FlatTail<T>(v: seq<Elem<T>>, w: seq<Elem<T>>)
    requires v != [] && w != [] && Flat(v) == Flat(w) && Width(v[0]) == Width(w[0])
    ensures Flat(v[1..]) == Flat(w[1..])
  {
    var n := Width(v[0]);
    assert Flat(v[1..]) == Flat(v)[n..] && Flat(w[1..]) == Flat(w)[n..];
  }

  /** A canonical chain is as short as any that denotes the same. */
  lemma {:induction false} CanonicalShortest<T>(v: seq<Elem<T>>, w: seq<Elem<T>>, lo: nat, hi: nat)
    requires Chain(v, lo, hi) && Chain(w, lo, hi) && NoEqualNeighbours(v) && Flat(v) == Flat(w)
    ensures |v| <= |w|
    decreases |w|
  {
    ChainEnd(v, lo, hi);
    ChainEnd(w, lo, hi);
    if v != [] && w != [] {
      FirstRun(v, w, lo, hi);
      if v[0].end == w[0].end {
        FlatTail(v, w);
        CanonicalShortest(v[1..], w[1..], v[0].end, hi);
      } else {
        var rest := [v[0].(start := w[0].end)] + v[1..];
        assert rest[1..] == v[1..];
        assert Flat(rest) == Flat(v)[Width(w[0])..];
        assert Flat(w[1..]) == Flat(w)[Width(w[0])..];
        assert NoEqualNeighbours(rest) by {
          forall i | 0 <= i < |rest| - 1 ensures rest[i].data != rest[i + 1].data {
            assert v[i].data != v[i + 1].data;
          }
        }
        CanonicalShortest(rest, w[1..], w[0].end, hi);
      }
    }
  }

  /** Canonical maps of one size denote the same array exactly when they are equal. */
  lemma {:induction false} CanonicalDecides<T>(v: seq<Elem<T>>, w: seq<Elem<T>>)
    requires Chain(v, 0, End(v, 0)) && Chain(w, 0, End(w, 0)) && End(v, 0) == End(w, 0)
    requires NoEqualNeighbours(v) && NoEqualNeighbours(w)
    ensures Flat(v) == Flat(w) <==> v == w
  {
    if Flat(v) == Flat(w) {
      CanonicalUnique(v, w, 0, End(v, 0));
    }
  }
}
