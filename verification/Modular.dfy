/** Facts about remainders by a variable modulus. */
module Modular {

  lemma Unique(x: int, b: int, q: int, r: int)
    requires b > 0 && x == q * b + r && 0 <= r < b
    ensures x / b == q && x % b == r
  {
    var d := q - x / b;
    assert d * b == x % b - r;
    assert d > 0 ==> d * b >= b;
    assert d < 0 ==> d * b <= -b;
  }

  /** Adding to a remainder adds to the number. */
  lemma AddInner(x: int, n: int, b: int)
    requires b > 0
    ensures (x % b + n) % b == (x + n) % b
  {
    var y := x % b + n;
    assert x + n == (x / b + y / b) * b + y % b by {
      assert (x / b + y / b) * b == x / b * b + y / b * b;
    }
    Unique(x + n, b, x / b + y / b, y % b);
  }

  lemma AddMultiple(x: int, k: int, b: int)
    requires b > 0
    ensures (x + k * b) % b == x % b
  {
    assert x + k * b == (x / b + k) * b + x % b;
    Unique(x + k * b, b, x / b + k, x % b);
  }

  /** A remainder by a multiple of f has the same remainder by f. */
  lemma Nested(x: int, b: int, f: int)
    requires f > 0 && b > 0 && b % f == 0
    ensures (x % b) % f == x % f
  {
    var k := b / f;
    assert b == k * f;
    assert x % b == x + (-(x / b) * k) * f;
    AddMultiple(x, -(x / b) * k, f);
  }

  /** Numbers closer than f to each other have different remainders. */
  lemma Distinct(i: int, j: int, f: int)
    requires f > 0 && i < j < i + f
    ensures i % f != j % f
  {
    var d := j / f - i / f;
    assert d * f == (j - j % f) - (i - i % f);
    assert d <= 0 ==> d * f <= 0;
    assert d >= 1 ==> d * f >= f;
  }

  /** The remainder of a sum of two numbers whose remainders do not overflow. */
  lemma Within(x: int, n: int, f: int)
    requires f > 0 && 0 <= n && x % f + n < f
    ensures (x + n) % f == x % f + n
  {
    Unique(x + n, f, x / f, x % f + n);
  }
}
