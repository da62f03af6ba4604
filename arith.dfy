/**
 * Facts about integer multiplication, division and remainder that the
 * solver does not find on its own.
 */
module Arith {
  /** Adding a remainder below s to a multiple of s does not change the quotient. */
  lemma DivOfOffset(s: nat, q: int, m: int)
    requires 0 < s && 0 <= m < s
    ensures (s * q + m) / s == q
  {
    var x := s * q + m;
    var k := x / s;
    assert s * k + x % s == x;
    assert s * (k - q) == m - x % s;
    if k - q >= 1 {
      MulAtLeast(s, k - q);
    } else if k - q <= -1 {
      MulAtLeast(s, q - k);
    }
  }

  /** A positive multiple of s is at least s. */
  lemma MulAtLeast(s: nat, d: int)
    requires 0 < s && 1 <= d
    ensures s * d >= s
  {
    assert s * d == s + s * (d - 1);
  }

  /** Multiplying by a natural number keeps order. */
  lemma MulMonotone(s: nat, a: int, b: int)
    requires a <= b
    ensures s * a <= s * b
  {
    assert s * b == s * a + s * (b - a);
  }

  /** A multiple of d leaves no remainder. */
  lemma MultipleMod(m: int, d: int)
    requires 0 < d
    ensures (m * d) % d == 0
  {
    var q := (m * d) / d;
    var r := (m * d) % d;
    assert m * d == q * d + r && 0 <= r < d;
    assert (m - q) * d == r;
    MulSign(m - q, d);
  }

  /** A product with a positive factor has the sign of the other factor, and at least its size. */
  lemma MulSign(e: int, d: int)
    requires 0 < d
    ensures e >= 1 ==> e * d >= d
    ensures e <= -1 ==> e * d <= -d
  {
    if e >= 1 {
      assert e * d == d + (e - 1) * d;
    } else if e <= -1 {
      assert e * d == -d + (e + 1) * d;
    }
  }

  /** Division with remainder determines quotient and remainder. */
  lemma DivUnique(x: int, d: nat, q: int, r: int)
    requires 0 < d && 0 <= r < d && x == d * q + r
    ensures x / d == q && x % d == r
  {
    DivOfOffset(d, q, r);
  }

  /** Going from a to a + 1 raises the quotient by one exactly when a + 1 is a multiple of d. */
  lemma DivSucc(a: nat, d: nat)
    requires 0 < d
    ensures (a + 1) / d == a / d + (if (a + 1) % d == 0 then 1 else 0)
  {
    var q, r := a / d, a % d;
    assert a == d * q + r;
    if r + 1 < d {
      DivUnique(a + 1, d, q, r + 1);
    } else {
      assert a + 1 == d * (q + 1) + 0;
      DivUnique(a + 1, d, q + 1, 0);
    }
  }
}
