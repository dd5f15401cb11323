/** Square roots of whole soft floats, and the real-number meaning of the result. */
module SoftFloats {
  import opened PowersOfTwo
  import opened SquareRoots

  /** A float with `prec` fraction bits; `Normal` stands for `mant * 2^(exp - prec)`, with the sign.
      Subnormal numbers are normalised too. */
  datatype Float = NaN | Zero(negative: bool) | Infinity(negative: bool) | Normal(negative: bool, exp: int, mant: nat)

  predicate IsFloat(prec: nat, x: Float) {
    x.Normal? ==> Exp2(prec) <= x.mant < Exp2(prec + 1)
  }

  /** The exponent made even, with the significand to match. */
  function EvenExp(exp: int): int {
    if exp % 2 != 0 then exp - 1 else exp
  }

  function EvenMant(exp: int, mant: nat): nat {
    if exp % 2 != 0 then 2 * mant else mant
  }

  function RootOf(prec: nat, x: Float): Float
    requires x.Normal?
  {
    Normal(false, EvenExp(x.exp) / 2, RootMantissa(prec, EvenMant(x.exp, x.mant)))
  }

  method Sqrt(w: nat, prec: nat, x: Float) returns (r: Float)
    requires 1 <= prec && prec + 4 <= w && IsFloat(prec, x)
    ensures x.Zero? || x.NaN? ==> r == x
    ensures (x.Normal? || x.Infinity?) && x.negative ==> r == NaN
    ensures x == Infinity(false) ==> r == Infinity(false)
    ensures x.Normal? && !x.negative ==> r == RootOf(prec, x) && IsFloat(prec, r)
  {
    if x.Zero? || x.NaN? {
      return x;
    }
    if x.negative {
      return NaN;
    }
    if x.Infinity? {
      return Infinity(false);
    }
    var exp, mant := x.exp, x.mant;
    assert Exp2(prec + 1) == 2 * Exp2(prec) && Exp2(prec + 2) == 4 * Exp2(prec) && Exp2(prec) >= 2;
    if exp % 2 != 0 {
      exp := exp - 1;
      Exp2Grows(prec + 2, w);
      mant := ShiftLeft(w, mant);
    }
    var res := SqrtMantissa(w, prec, mant);
    RootMantissaIsNearest(prec, mant);
    return Normal(false, exp / 2, res);
  }

  // What floats stand for: real numbers, scaled by powers of two.

  function Half(x: real): (h: real)
    ensures h + h == x
  {
    x / 2.0
  }

  /** `x * 2^n`. */
  function Scalbn(x: real, n: int): real
    decreases if n >= 0 then n else -n
  {
    if n == 0 then x else if n > 0 then Scalbn(x, n - 1) + Scalbn(x, n - 1) else Half(Scalbn(x, n + 1))
  }

  function Value(prec: nat, x: Float): real
    requires x.Normal? && !x.negative
  {
    Scalbn(x.mant as real, x.exp - prec)
  }

  function Abs(x: real): real {
    if x < 0.0 then -x else x
  }

  lemma ScalbnNext(x: real, n: int)
    ensures Scalbn(x, n + 1) == Scalbn(x, n) + Scalbn(x, n)
  {
  }

  lemma {:induction false} ScalbnAdd(x: real, a: int, b: int)
    ensures Scalbn(Scalbn(x, a), b) == Scalbn(x, a + b)
    decreases if b >= 0 then b else -b
  {
    if b > 0 {
      ScalbnAdd(x, a, b - 1);
      ScalbnNext(x, a + b - 1);
    } else if b < 0 {
      ScalbnAdd(x, a, b + 1);
      ScalbnNext(x, a + b);
    }
  }

  lemma {:induction false} ScalbnDifference(x: real, y: real, n: int)
    ensures Scalbn(x - y, n) == Scalbn(x, n) - Scalbn(y, n)
    decreases if n >= 0 then n else -n
  {
    if n > 0 {
      ScalbnDifference(x, y, n - 1);
    } else if n < 0 {
      ScalbnDifference(x, y, n + 1);
    }
  }

  lemma {:induction false} ScalbnSign(x: real, n: int)
    ensures Scalbn(x, n) > 0.0 <==> x > 0.0
    ensures Scalbn(x, n) == 0.0 <==> x == 0.0
    decreases if n >= 0 then n else -n
  {
    if n > 0 {
      ScalbnSign(x, n - 1);
    } else if n < 0 {
      ScalbnSign(x, n + 1);
    }
  }

  lemma {:induction false} ScalbnOrder(x: real, y: real, n: int)
    ensures Scalbn(x, n) < Scalbn(y, n) <==> x < y
    ensures Scalbn(x, n) == Scalbn(y, n) <==> x == y
  {
    ScalbnDifference(y, x, n);
    ScalbnSign(y - x, n);
  }

  lemma {:induction false} ScalbnOfNat(m: nat, n: nat)
    ensures Scalbn(m as real, n) == (m * Exp2(n)) as real
  {
    if n > 0 {
      ScalbnOfNat(m, n - 1);
      assert m * Exp2(n) == m * Exp2(n - 1) + m * Exp2(n - 1);
    }
  }

  lemma {:induction false} ScalbnDown(x: real, n: int)
    requires x >= 0.0 && n > 0
    ensures Scalbn(x, -n) <= Half(x)
  {
    if n > 1 {
      ScalbnDown(x, n - 1);
      assert -n + 1 == -(n - 1);
      ScalbnSign(x, -n);
    }
  }

  predicate IsSquare(w: real, u: real) {
    w == u * u
  }

  lemma {:induction false} ScalbnSquare(x: real, xx: real, n: int)
    requires IsSquare(xx, x)
    ensures IsSquare(Scalbn(xx, n + n), Scalbn(x, n))
    decreases if n >= 0 then n else -n
  {
    if n > 0 {
      ScalbnSquare(x, xx, n - 1);
      ScalbnNext(xx, n + n - 2);
      ScalbnNext(xx, n + n - 1);
      FourTimes(Scalbn(xx, n + n - 2), Scalbn(x, n - 1), Scalbn(xx, n + n), Scalbn(x, n));
    } else if n < 0 {
      ScalbnSquare(x, xx, n + 1);
      ScalbnNext(xx, n + n);
      ScalbnNext(xx, n + n + 1);
      FourTimes(Scalbn(xx, n + n), Scalbn(x, n), Scalbn(xx, n + n + 2), Scalbn(x, n + 1));
    }
  }

  lemma FourTimes(ww: real, w: real, uu: real, u: real)
    requires u == w + w && uu == ww + ww + ww + ww
    ensures IsSquare(ww, w) <==> IsSquare(uu, u)
  {
    assert u * u == 4.0 * (w * w);
  }

  // The root on the scale where candidates are integers.

  /** Scaling the root by the exponent of the result makes the radicand an integer. */
  lemma Rescaled(prec: nat, x: Float, y: real, e: int, root: real)
    requires x.Normal? && !x.negative && e == EvenExp(x.exp) / 2 - prec
    requires IsSquare(Value(prec, x), y) && root == Scalbn(y, -e)
    ensures IsSquare((EvenMant(x.exp, x.mant) * Exp2(prec)) as real, root)
  {
    ScalbnSquare(y, Value(prec, x), -e);
    ScalbnAdd(x.mant as real, x.exp - prec, -e + -e);
    assert EvenExp(x.exp) == 2 * (e + prec);
    if x.exp % 2 != 0 {
      assert x.exp - prec + (-e + -e) == prec + 1;
      ScalbnOfNat(x.mant, prec + 1);
      MoveTwo(x.mant, Exp2(prec), Exp2(prec + 1));
    } else {
      assert x.exp - prec + (-e + -e) == prec;
      ScalbnOfNat(x.mant, prec);
    }
  }

  lemma MoveTwo(m: nat, p: nat, q: nat)
    requires q == 2 * p
    ensures m * q == (2 * m) * p
  {
  }

  lemma SquareOrder(a: real, b: real, aa: real, bb: real)
    requires a >= 0.0 && b >= 0.0 && IsSquare(aa, a) && IsSquare(bb, b)
    ensures aa < bb <==> a < b
  {
    if a < b {
      SquareOfLess(a, b);
    } else if b < a {
      SquareOfLess(b, a);
    }
  }

  lemma SquareOfLess(a: real, b: real)
    requires 0.0 <= a < b
    ensures a * a < b * b
  {
    var d := b - a;
    assert b * b == a * a + 2.0 * (a * d) + d * d;
    assert a * d >= 0.0;
    assert d * d > 0.0;
  }

  /** The nearest integer is within one half. */
  lemma WithinHalf(r: int, m: int, root: real)
    requires NearestRoot(r, m) && root >= 0.0 && IsSquare(m as real, root)
    ensures Abs(r as real - root) < 0.5
  {
    var lo, hi := 2 * r - 1, 2 * r + 1;
    IntSquare(lo);
    IntSquare(hi);
    FourTimes(m as real, root, (4 * m) as real, root + root);
    SquareOrder(lo as real, root + root, (lo * lo) as real, (4 * m) as real);
    SquareOrder(root + root, hi as real, (4 * m) as real, (hi * hi) as real);
  }

  lemma IntSquare(i: int)
    ensures IsSquare((i * i) as real, i as real)
  {
  }

  lemma AtLeast(b: nat, m: nat, root: real)
    requires b <= m && root >= 0.0 && IsSquare((m * b) as real, root)
    ensures b as real <= root
  {
    AtMost(b, m, b);
    IntSquare(b);
    if root < b as real {
      SquareOrder(root, b as real, (m * b) as real, (b * b) as real);
    }
  }

  /** A candidate on the same scale is an integer, or else too small to be as near as `b`. */
  lemma NearestOfAll(r: nat, b: nat, root: real, z: real)
    requires Abs(r as real - root) < 0.5 && b <= r && b as real <= root
    requires z == z.Floor as real || z < b as real
    ensures Abs(r as real - root) <= Abs(z - root)
    ensures Abs(r as real - root) == Abs(z - root) ==> z == r as real
  {
    if z == z.Floor as real {
      var i := z.Floor;
      if i != r {
        assert i <= r - 1 || i >= r + 1;
        assert i as real <= r as real - 1.0 || i as real >= r as real + 1.0;
      }
    } else if b < r {
      assert b as real <= r as real - 1.0;
    }
  }

  /** A significand of at most `prec + 1` bits, `n` exponents away. */
  lemma OnScale(prec: nat, k: nat, n: int)
    requires k < Exp2(prec + 1)
    ensures var z := Scalbn(k as real, n); z == z.Floor as real || z < Exp2(prec) as real
  {
    if n >= 0 {
      ScalbnOfNat(k, n);
      IntFloor(k * Exp2(n));
    } else {
      ScalbnDown(k as real, -n);
      assert k < 2 * Exp2(prec);
    }
  }

  lemma IntFloor(i: int)
    ensures (i as real).Floor == i
  {
  }

  /** Distances grow with the scale. */
  lemma {:induction false} ScaleBack(r: real, z: real, root: real, e: int)
    requires Abs(r - root) <= Abs(z - root) && (Abs(r - root) == Abs(z - root) ==> z == r)
    ensures var r', z', y := Scalbn(r, e), Scalbn(z, e), Scalbn(root, e);
      Abs(r' - y) <= Abs(z' - y) && (Abs(r' - y) == Abs(z' - y) ==> z' == r')
  {
    AbsScaled(r, root, e);
    AbsScaled(z, root, e);
    ScalbnOrder(Abs(r - root), Abs(z - root), e);
  }

  lemma AbsScaled(x: real, y: real, e: int)
    ensures Abs(Scalbn(x, e) - Scalbn(y, e)) == Scalbn(Abs(x - y), e)
  {
    ScalbnDifference(x, y, e);
    ScalbnDifference(y, x, e);
    ScalbnSign(x - y, e);
  }

  /** Correct rounding: of all numbers with a significand of at most `prec + 1` bits, at any exponent,
      the result is the one nearest to the real square root `y`, and no other is as near. */
  lemma CorrectlyRounded(prec: nat, x: Float, y: real, k: nat, f: int)
    requires 1 <= prec && IsFloat(prec, x) && x.Normal? && !x.negative
    requires y >= 0.0 && IsSquare(Value(prec, x), y)
    requires k < Exp2(prec + 1)
    ensures var r, z := Value(prec, RootOf(prec, x)), Scalbn(k as real, f);
      Abs(r - y) <= Abs(z - y) && (Abs(r - y) == Abs(z - y) ==> z == r)
  {
    var e, m, b := EvenExp(x.exp) / 2 - prec, EvenMant(x.exp, x.mant), Exp2(prec);
    var root, r, z := Scalbn(y, -e), RootMantissa(prec, m), Scalbn(k as real, f - e);
    RadicandOf(prec, x);
    RootMantissaIsNearest(prec, m);
    Rescaled(prec, x, y, e, root);
    ScalbnSign(y, -e);
    WithinHalf(r, m * b, root);
    AtLeast(b, m, root);
    OnScale(prec, k, f - e);
    NearestOfAll(r, b, root, z);
    ScaleBack(r as real, z, root, e);
    ScalbnAdd(k as real, f - e, e);
    ScalbnAdd(y, -e, e);
  }

  lemma RadicandOf(prec: nat, x: Float)
    requires 1 <= prec && IsFloat(prec, x) && x.Normal?
    ensures Radicand(prec, EvenMant(x.exp, x.mant))
  {
    assert Exp2(prec + 1) == 2 * Exp2(prec) && Exp2(prec + 2) == 4 * Exp2(prec) && Exp2(prec) >= 2;
  }
}
