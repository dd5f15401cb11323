/** Vector clocks: finite maps from vector index to timestamp, stored as a sequence
    whose last entry is never zero. A missing entry reads as 0. */
module VectorClocks {

  predicate Canonical(s: seq<nat>) {
    s == [] || s[|s| - 1] != 0
  }

  type VClock = s: seq<nat> | Canonical(s)

  function Max(a: nat, b: nat): nat { if a < b then b else a }

  function At(c: seq<nat>, i: nat): nat {
    if i < |c| then c[i] else 0
  }

  /** `c` padded with zeros to at least `n` entries. */
  function Padded(c: seq<nat>, n: nat): (p: seq<nat>)
    ensures |p| == Max(|c|, n)
    ensures forall i: nat :: At(p, i) == At(c, i)
  {
    if n <= |c| then c else c + seq(n - |c|, _ => 0)
  }

  function Increment(c: VClock, i: nat): (r: VClock)
    ensures At(r, i) == At(c, i) + 1
    ensures forall k: nat :: k != i ==> At(r, k) == At(c, k)
    ensures |r| == Max(|c|, i + 1)
  {
    Padded(c, i + 1)[i := At(c, i) + 1]
  }

  function Join(l: VClock, r: VClock): (j: VClock)
    ensures forall i: nat :: At(j, i) == Max(At(l, i), At(r, i))
    ensures |j| == Max(|l|, |r|)
  {
    seq(Max(|l|, |r|), i requires i >= 0 => Max(At(l, i), At(r, i)))
  }

  /** The clock that is zero except for timestamp `ts` at index `i`. */
  function Singleton(i: nat, ts: nat): (r: VClock)
    ensures forall k: nat :: At(r, k) == if k == i then ts else 0
  {
    if ts == 0 then [] else Padded([], i + 1)[i := ts]
  }

  /** True when `SetAtIndex` does not hit its "may only increase" assertion. */
  predicate MaySetAtIndex(c: VClock, other: VClock, i: nat) {
    At(c, i) <= At(other, i)
  }

  /** Copies entry `i` of `other`; on a failed assertion the clock is left as it was. */
  function SetAtIndex(c: VClock, other: VClock, i: nat): (r: VClock)
    ensures MaySetAtIndex(c, other, i) ==> At(r, i) == At(other, i)
    ensures forall k: nat :: k != i ==> At(r, k) == At(c, k)
    ensures |r| <= Max(|c|, i + 1)
  {
    if !MaySetAtIndex(c, other, i) || (At(other, i) == 0 && i >= |c|) then c
    else Padded(c, i + 1)[i := At(other, i)]
  }

  /** The early-exit comparison on the stored slices. */
  predicate Leq(l: VClock, r: VClock) {
    |l| <= |r| && forall i :: 0 <= i < |l| ==> l[i] <= r[i]
  }

  lemma LeqPointwise(l: VClock, r: VClock)
    ensures Leq(l, r) <==> forall i: nat :: At(l, i) <= At(r, i)
  {
    if |l| > |r| {
      assert At(l, |l| - 1) > At(r, |l| - 1);
    } else if forall i: nat :: At(l, i) <= At(r, i) {
      assert forall i: nat :: i < |l| ==> At(l, i) == l[i];
    }
  }

  lemma Extensional(a: VClock, b: VClock)
    requires forall i: nat :: At(a, i) == At(b, i)
    ensures a == b
  {
    assert |a| > 0 ==> At(a, |a| - 1) != 0;
    assert |b| > 0 ==> At(b, |b| - 1) != 0;
    assert forall i | 0 <= i < |a| :: At(a, i) == a[i] && At(b, i) == b[i];
  }

  lemma JoinIsLeastUpperBound(l: VClock, r: VClock, u: VClock)
    ensures Leq(l, Join(l, r)) && Leq(r, Join(l, r))
    ensures Leq(Join(l, r), u) <==> Leq(l, u) && Leq(r, u)
  {
    LeqPointwise(l, Join(l, r));
    LeqPointwise(r, Join(l, r));
    LeqPointwise(Join(l, r), u);
    LeqPointwise(l, u);
    LeqPointwise(r, u);
    assert forall i: nat :: At(l, i) <= At(Join(l, r), i) && At(r, i) <= At(Join(l, r), i);
  }
}
