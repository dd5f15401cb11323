/** Powers of two, and when they divide each other. */
module PowersOfTwo {

  function Exp2(n: nat): (r: nat)
    ensures r >= 1
  {
    if n == 0 then 1 else 2 * Exp2(n - 1)
  }

  lemma {:induction false} Exp2Add(a: nat, b: nat)
    ensures Exp2(a + b) == Exp2(a) * Exp2(b)
  {
    if a > 0 {
      Exp2Add(a - 1, b);
      assert a + b - 1 == a - 1 + b;
      Associate(2, Exp2(a - 1), Exp2(b));
    }
  }

  lemma Associate(a: int, b: int, c: int)
    ensures (a * b) * c == a * (b * c)
  {
  }

  lemma {:induction false} Exp2Grows(a: nat, b: nat)
    requires a <= b
    ensures Exp2(a) <= Exp2(b)
  {
    if a < b {
      Exp2Grows(a, b - 1);
    }
  }

  ghost predicate IsPowerOfTwo(n: nat) {
    exists k: nat :: n == Exp2(k)
  }

  lemma PowersDivide(a: nat, b: nat)
    requires IsPowerOfTwo(a) && IsPowerOfTwo(b) && a <= b
    ensures a > 0 && b % a == 0
  {
    var j: nat :| a == Exp2(j);
    var k: nat :| b == Exp2(k);
    if j > k {
      Exp2Grows(k + 1, j);
    } else {
      Exp2Add(j, k - j);
      MultipleOf(Exp2(k - j), a);
    }
  }

  lemma MultipleOf(q: int, m: nat)
    requires m > 0
    ensures (m * q) % m == 0
  {
    Unique(m * q, m, q, 0);
  }

  lemma AtLeastOnce(d: int, m: int)
    requires m >= 0
    ensures d >= 1 ==> m * d >= m
    ensures d <= -1 ==> m * d <= -m
  {
    if d >= 1 {
      assert m * d == m + m * (d - 1);
    } else if d <= -1 {
      assert m * d == -m + m * (d + 1);
      assert m * -(d + 1) >= 0;
    }
  }

  /** Quotient and remainder are unique. */
  lemma Unique(x: int, m: nat, q: int, r: nat)
    requires m > 0 && x == m * q + r && r < m
    ensures x / m == q && x % m == r
  {
    var d := x / m - q;
    assert x == m * (x / m) + x % m;
    assert m * (x / m) - m * q == m * d;
    AtLeastOnce(d, m);
  }

  lemma ModTransitive(x: int, m: nat, n: nat)
    requires m > 0 && n > 0 && x % m == 0 && m % n == 0
    ensures x % n == 0
  {
    var q, p := x / m, m / n;
    assert x == m * q && m == n * p;
    assert x == n * (p * q);
    MultipleOf(p * q, n);
  }

  lemma ModSum(x: int, y: int, n: nat)
    requires n > 0 && x % n == 0 && y % n == 0
    ensures (x + y) % n == 0 && (x - y) % n == 0
  {
    var p, q := x / n, y / n;
    assert x == n * p && y == n * q;
    assert x + y == n * (p + q) && x - y == n * (p - q);
    MultipleOf(p + q, n);
    MultipleOf(p - q, n);
  }

  lemma RoundUp(x: nat, m: nat, r: nat)
    requires m > 0 && r == x % m
    ensures (x - r + m) % m == 0 && r < m
  {
    var q := x / m;
    assert x == m * q + r;
    assert x - r + m == m * (q + 1);
    MultipleOf(q + 1, m);
  }

  /** The least multiple of `m` from `x` on. */
  function NextMultiple(x: nat, m: nat): (r: nat)
    requires m > 0
    ensures r % m == 0 && x <= r < x + m
  {
    var r := x % m;
    RoundUp(x, m, r);
    if r == 0 then x else x - r + m
  }
}
