/** The digit-by-digit square root of soft floats, in `u128` arithmetic, and its correct rounding. */
module SquareRoots {
  import opened PowersOfTwo

  // Unsigned arithmetic of `w` bits; `u128` has 128.

  /** Checked addition: overflow would panic. */
  function Add(w: nat, a: nat, b: nat): nat
    requires a + b < Exp2(w)
  {
    a + b
  }

  /** `x << 1`: a bit beyond the last one is lost. */
  function ShiftLeft(w: nat, x: nat): nat
    requires x < Exp2(w)
  {
    if x + x < Exp2(w) then x + x else x + x - Exp2(w)
  }

  /** The unbounded loop state: `n` is the scaled radicand, `res` its root found so far, and `d` the
      bit to try next. Between iterations `rem * d` is what is left of `n`; after the last one, twice that. */
  ghost predicate Rooting(n: nat, top: nat, res: nat, rem: nat, s: nat, d: nat) {
    && s == 2 * res && res * res <= n
    && (d > 0 ==> rem * d == n - res * res && n < (res + 2 * d) * (res + 2 * d) && res + 2 * d <= top)
    && (d == 0 ==> rem == 2 * (n - res * res) && n < (res + 1) * (res + 1) && res + 1 <= top)
  }

  lemma KeepsOrder(a: nat, b: nat, d: nat)
    ensures a <= b ==> a * d <= b * d
  {
  }

  /** Every intermediate value stays below four times the largest root. */
  lemma RemainderIsSmall(n: nat, top: nat, res: nat, rem: nat, s: nat, d: nat)
    requires Rooting(n, top, res, rem, s, d)
    ensures rem < 4 * top && s + d < 2 * top && s + 2 * d < 4 * top && res + d < top
  {
    if d > 0 {
      assert (res + 2 * d) * (res + 2 * d) == res * res + (4 * res + 4 * d) * d;
      KeepsOrder(4 * res + 4 * d, rem, d);
    } else {
      assert (res + 1) * (res + 1) == res * res + 2 * res + 1;
    }
  }

  /** One iteration tries bit `d`. */
  lemma TryBit(n: nat, top: nat, res: nat, rem: nat, s: nat, d: nat)
    requires Rooting(n, top, res, rem, s, d) && d > 0 && (d == 1 || d % 2 == 0)
    ensures rem >= s + d ==> Rooting(n, top, res + d, 2 * (rem - (s + d)), s + 2 * d, d / 2)
    ensures rem < s + d ==> Rooting(n, top, res, 2 * rem, s, d / 2)
  {
    if d == 1 {
      TryLast(n, res, rem);
    } else {
      assert d == 2 * (d / 2);
      TryHalf(n, res, rem, d / 2);
    }
  }

  lemma TryLast(n: nat, res: nat, rem: nat)
    requires rem == n - res * res && n < (res + 2) * (res + 2)
    ensures rem >= 2 * res + 1 ==> (res + 1) * (res + 1) <= n && rem - (2 * res + 1) == n - (res + 1) * (res + 1)
    ensures rem < 2 * res + 1 ==> n < (res + 1) * (res + 1)
    ensures (res + 1 + 1) * (res + 1 + 1) == (res + 2) * (res + 2)
  {
  }

  lemma TryHalf(n: nat, res: nat, rem: nat, h: nat)
    requires rem * (2 * h) == n - res * res && n < (res + 2 * (2 * h)) * (res + 2 * (2 * h))
    ensures rem >= 2 * res + 2 * h ==>
      2 * (rem - (2 * res + 2 * h)) * h == n - (res + 2 * h) * (res + 2 * h) >= 0
    ensures n < (res + 2 * h + 2 * h) * (res + 2 * h + 2 * h)
    ensures (2 * rem) * h == n - res * res
    ensures rem < 2 * res + 2 * h ==> n < (res + 2 * h) * (res + 2 * h) || h == 0
  {
    assert res + 2 * h + 2 * h == res + 2 * (2 * h);
    assert rem * (2 * h) == (2 * rem) * h;
    var t := 2 * res + 2 * h;
    if rem >= t {
      TakeAway(rem, t, 2 * h);
      assert t * (2 * h) == (res + 2 * h) * (res + 2 * h) - res * res;
      assert 2 * (rem - t) * h == (rem - t) * (2 * h);
    } else if h > 0 {
      Times(rem, t, 2 * h);
      assert t * (2 * h) == (res + 2 * h) * (res + 2 * h) - res * res;
    }
  }

  lemma TakeAway(a: nat, b: nat, c: nat)
    requires a >= b
    ensures (a - b) * c == a * c - b * c >= 0
  {
  }

  lemma Times(a: nat, b: nat, c: nat)
    requires a < b && c > 0
    ensures a * c < b * c
  {
  }

  /** Every significand of `prec` fraction bits, or twice one. */
  predicate Radicand(prec: nat, mant: int) {
    Exp2(prec) <= mant <= Exp2(prec + 2) - 2
  }

  /** `r` is the one integer nearest to the square root of `m`, and not by a tie. */
  predicate NearestRoot(r: int, m: int) {
    r >= 1 && (2 * r - 1) * (2 * r - 1) < 4 * m < (2 * r + 1) * (2 * r + 1)
  }

  /** The radicand with one extra bit for rounding, so that its root has one extra bit. */
  function Scaled(prec: nat, mant: nat): nat {
    Exp2(prec + 2) * mant
  }

  lemma {:induction false} BeginFits(prec: nat, mant: nat)
    requires Radicand(prec, mant)
    ensures 2 * mant < Exp2(prec + 4) && Exp2(prec + 1) < Exp2(prec + 4) && 4 * Exp2(prec + 2) == Exp2(prec + 4)
  {
    assert Exp2(prec + 4) == 2 * Exp2(prec + 3);
  }

  lemma {:induction false} Begin(prec: nat, mant: nat, n: nat, top: nat, rem: nat, d: nat)
    requires Radicand(prec, mant) && n == Scaled(prec, mant) && top == Exp2(prec + 2)
    requires rem == 2 * mant && d == Exp2(prec + 1)
    ensures Rooting(n, top, 0, rem, 0, d)
  {
    assert top == 2 * d;
    assert (2 * mant) * d == (2 * d) * mant;
    Times(mant, 2 * d, 2 * d);
    assert mant * (2 * d) == (2 * d) * mant;
    assert (0 + 2 * d) * (0 + 2 * d) == (2 * d) * (2 * d);
  }

  /** Dropping the extra bit of the truncated root, rounding up on a one, rounds to nearest. */
  lemma RoundsToNearest(prec: nat, mant: nat, res: nat)
    requires Radicand(prec, mant)
    requires res * res <= Exp2(prec + 2) * mant < (res + 1) * (res + 1)
    ensures Exp2(prec) <= (res + 1) / 2 < Exp2(prec + 1)
    ensures NearestRoot((res + 1) / 2, mant * Exp2(prec))
  {
    var p := Exp2(prec);
    assert Exp2(prec + 1) == 2 * p && Exp2(prec + 2) == 4 * p;
    var m := mant * p;
    assert Exp2(prec + 2) * mant == 4 * m;
    RootRange(p, mant, res);
    RoundHalf(m, res, (res + 1) / 2);
  }

  lemma RoundHalf(m: nat, res: nat, r: nat)
    requires res >= 1 && r == (res + 1) / 2 && res * res <= 4 * m < (res + 1) * (res + 1)
    ensures NearestRoot(r, m)
  {
    if res % 2 == 0 {
      RoundEven(m, r);
    } else {
      RoundOdd(m, r);
    }
  }

  lemma RoundEven(m: nat, r: nat)
    requires r >= 1 && (2 * r) * (2 * r) <= 4 * m < (2 * r + 1) * (2 * r + 1)
    ensures NearestRoot(r, m)
  {
    assert (2 * r - 1) * (2 * r - 1) == (2 * r) * (2 * r) - 4 * r + 1;
  }

  lemma RoundOdd(m: nat, r: nat)
    requires r >= 1 && (2 * r - 1) * (2 * r - 1) <= 4 * m < (2 * r) * (2 * r)
    ensures NearestRoot(r, m)
  {
    OddSquare(r);
    assert (2 * r + 1) * (2 * r + 1) == (2 * r) * (2 * r) + 4 * r + 1;
  }

  lemma OddSquare(r: int)
    ensures (2 * r - 1) * (2 * r - 1) == 4 * (r * r - r) + 1
  {
  }

  lemma RootRange(p: nat, mant: nat, res: nat)
    requires p >= 1 && p <= mant <= 4 * p - 2
    requires res * res <= 4 * (mant * p) < (res + 1) * (res + 1)
    ensures 2 * p <= res < 4 * p - 1
  {
    if res < 2 * p {
      Squares(res + 1, 2 * p);
      assert (2 * p) * (2 * p) == 4 * (p * p);
      AtMost(p, mant, p);
    }
    if res >= 4 * p - 1 {
      Squares(4 * p - 1, res);
      AtMost(mant, 4 * p - 2, p);
      SquareBelow(p);
    }
  }

  lemma SquareBelow(p: int)
    ensures (4 * p - 1) * (4 * p - 1) == 4 * ((4 * p - 2) * p) + 1
  {
  }

  lemma AtMost(a: nat, b: nat, c: nat)
    requires a <= b
    ensures a * c <= b * c
  {
  }

  lemma Squares(a: nat, b: nat)
    requires a <= b
    ensures a * a <= b * b
  {
    AtMost(a, b, a);
    AtMost(a, b, b);
    assert a * b == b * a;
  }

  // The loop without a bound on its integers.

  datatype Digits = Digits(res: nat, rem: nat, s: nat, d: nat)

  function Iterate(x: Digits): Digits {
    if x.rem >= x.s + x.d then Digits(x.res + x.d, 2 * (x.rem - (x.s + x.d)), x.s + 2 * x.d, x.d / 2)
    else Digits(x.res, 2 * x.rem, x.s, x.d / 2)
  }

  /** The state after `k` iterations. */
  function After(prec: nat, mant: nat, k: nat): Digits {
    if k == 0 then Digits(0, 2 * mant, 0, Exp2(prec + 1)) else Iterate(After(prec, mant, k - 1))
  }

  lemma IterateKeepsRooting(n: nat, top: nat, x: Digits)
    requires Rooting(n, top, x.res, x.rem, x.s, x.d) && x.d > 0 && (x.d == 1 || x.d % 2 == 0)
    ensures var y := Iterate(x); y.d == x.d / 2 && Rooting(n, top, y.res, y.rem, y.s, y.d)
  {
    TryBit(n, top, x.res, x.rem, x.s, x.d);
  }

  /** In every iteration, the bits tried so far give the largest root that they can. */
  lemma {:induction false} StaysRooting(prec: nat, mant: nat, k: nat)
    requires Radicand(prec, mant) && k <= prec + 2
    ensures var x := After(prec, mant, k);
      && x.d == (if k <= prec + 1 then Exp2(prec + 1 - k) else 0)
      && Rooting(Scaled(prec, mant), Exp2(prec + 2), x.res, x.rem, x.s, x.d)
  {
    if k == 0 {
      Begin(prec, mant, Scaled(prec, mant), Exp2(prec + 2), 2 * mant, Exp2(prec + 1));
    } else {
      StaysRooting(prec, mant, k - 1);
      var x := After(prec, mant, k - 1);
      assert k <= prec + 1 ==> x.d == 2 * Exp2(prec + 1 - k);
      IterateKeepsRooting(Scaled(prec, mant), Exp2(prec + 2), x);
    }
  }

  /** No intermediate value reaches four bits more than the precision. */
  lemma StaysSmall(prec: nat, mant: nat, k: nat)
    requires Radicand(prec, mant) && k <= prec + 1
    ensures var x, y := After(prec, mant, k), After(prec, mant, k + 1);
      && x.d == Exp2(prec + 1 - k) && y.d == (if k <= prec then Exp2(prec - k) else 0)
      && x.s + x.d < Exp2(prec + 4) && x.s + 2 * x.d < Exp2(prec + 4) && x.res + x.d < Exp2(prec + 4)
      && 2 * x.d < Exp2(prec + 4) && y.rem < Exp2(prec + 4)
  {
    assert Exp2(prec + 4) == 2 * Exp2(prec + 3) == 4 * Exp2(prec + 2);
    var x, y := After(prec, mant, k), After(prec, mant, k + 1);
    StaysRooting(prec, mant, k);
    StaysRooting(prec, mant, k + 1);
    RemainderIsSmall(Scaled(prec, mant), Exp2(prec + 2), x.res, x.rem, x.s, x.d);
    RemainderIsSmall(Scaled(prec, mant), Exp2(prec + 2), y.res, y.rem, y.s, y.d);
  }

  /** The root that is left when the bits run out, rounded. */
  function RootMantissa(prec: nat, mant: nat): nat {
    (After(prec, mant, prec + 2).res + 1) / 2
  }

  lemma RootMantissaIsNearest(prec: nat, mant: nat)
    requires Radicand(prec, mant)
    ensures Exp2(prec) <= RootMantissa(prec, mant) < Exp2(prec + 1)
    ensures NearestRoot(RootMantissa(prec, mant), mant * Exp2(prec))
  {
    StaysRooting(prec, mant, prec + 2);
    RoundsToNearest(prec, mant, After(prec, mant, prec + 2).res);
  }

  lemma {:induction false} EndsSmall(prec: nat, mant: nat)
    requires Radicand(prec, mant)
    ensures After(prec, mant, prec + 2).res + 1 < Exp2(prec + 4)
  {
    StaysRooting(prec, mant, prec + 2);
    assert Exp2(prec + 4) == 2 * Exp2(prec + 3) == 4 * Exp2(prec + 2);
  }

  /** The loop in `w`-bit unsigned arithmetic. Four bits more than the precision are enough, so 128
      bits serve every precision up to 124, and those of all float formats up to 112. */
  method SqrtMantissa(w: nat, prec: nat, mant: nat) returns (res: nat)
    requires prec + 4 <= w && Radicand(prec, mant)
    ensures res == RootMantissa(prec, mant)
  {
    Exp2Grows(prec + 4, w);
    BeginFits(prec, mant);
    res := 0;
    var rem := ShiftLeft(w, mant);
    var s := 0;
    var d := Exp2(prec + 1);
    ghost var k: nat := 0;
    while d != 0
      invariant k <= prec + 2 && After(prec, mant, k) == Digits(res, rem, s, d)
      invariant d == if k <= prec + 1 then Exp2(prec + 1 - k) else 0
      decreases d
    {
      StaysSmall(prec, mant, k);
      var t := Add(w, s, d);
      if rem >= t {
        res := Add(w, res, d);
        s := Add(w, s, Add(w, d, d));
        rem := rem - t;
      }
      rem := ShiftLeft(w, rem);
      d := d / 2;
      k := k + 1;
    }
    EndsSmall(prec, mant);
    res := Add(w, res, 1) / 2;
  }
}
