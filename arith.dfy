/** Powers of two, and facts about Euclidean division and remainder that
    the round-robin scans of the model rely on. */
module Arith {
  /** Two to the power `n`. */
  function Pow2(n: nat): (p: nat)
    ensures p >= 1
  {
    if n == 0 then 1 else 2 * Pow2(n - 1)
  }

  lemma MulBounds(d: int, n: int)
    requires n > 0
    ensures d >= 1 ==> d * n >= n
    ensures d <= -1 ==> d * n <= -n
  {
    if d >= 1 {
      assert d * n == n + (d - 1) * n;
      assert (d - 1) * n >= 0;
    } else if d <= -1 {
      assert d * n == -n + (d + 1) * n;
      assert (d + 1) * n <= 0;
    }
  }

  lemma ModUnique(x: int, n: int, q: int, r: int)
    requires n > 0 && x == q * n + r && 0 <= r < n
    ensures x % n == r && x / n == q
  {
    var q' := x / n;
    var r' := x % n;
    assert x == q' * n + r';
    assert (q - q') * n == r' - r;
    MulBounds(q - q', n);
  }

  lemma ModSucc(x: int, n: nat)
    requires n > 0
    ensures ((x % n) + 1) % n == (x + 1) % n
  {
    var r := x % n;
    var q := x / n;
    if r + 1 < n {
      ModUnique(x + 1, n, q, r + 1);
      ModUnique(r + 1, n, 0, r + 1);
    } else {
      ModUnique(x + 1, n, q + 1, 0);
      ModUnique(r + 1, n, 1, 0);
    }
  }

  /** Rotation: one pass over `n` consecutive positions from any start
      reaches every index below `n`. */
  lemma RotationCovers(start: int, n: nat, c: nat)
    requires c < n
    ensures 0 <= (c - start) % n < n && (start + (c - start) % n) % n == c
  {
    var d := (c - start) % n;
    var q := (c - start) / n;
    assert c - start == q * n + d;
    ModUnique(start + d, n, -q, c);
  }

  lemma AddPeriod(b: nat, n: nat)
    requires n > 0
    ensures (b + n) % n == b % n
  {
    ModUnique(b + n, n, b / n + 1, b % n);
  }

  /** Dividing twice is dividing by the product. */
  lemma DivDiv(t: nat, a: nat, b: nat)
    requires a > 0 && b > 0
    ensures t / a / b == t / (a * b)
  {
    var q := t / (a * b);
    var r := t % (a * b);
    var r1 := r % a;
    var r2 := r / a;
    assert r == r2 * a + r1;
    assert t == (q * b + r2) * a + r1;
    ModUnique(t, a, q * b + r2, r1);
    ModUnique(t / a, b, q, r2);
  }

  /** Adding whole periods leaves the remainder unchanged. */
  lemma AddMultiple(x: int, q: nat, n: nat)
    requires n > 0
    ensures (x + q * n) % n == x % n
  {
    ModUnique(x + q * n, n, x / n + q, x % n);
  }

  /** A quotient of a number below `m·n` is below `m`. */
  lemma DivBelow(x: nat, n: nat, m: nat)
    requires n > 0 && x < m * n
    ensures x / n < m
  {
    ModUnique(x, n, x / n, x % n);
    if x / n >= m {
      MulMono(m, x / n, n);
    }
  }

  /** Multiplication by a natural number is monotone. */
  lemma MulMono(a: nat, b: nat, n: nat)
    requires a <= b
    ensures a * n <= b * n
  {
  }
}
