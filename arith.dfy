/**
  Facts about integer division by powers of two that the flag tests need:
  setting a clear bit carries into no other bit.
*/
module Arith {

  lemma MulNonneg(x: int, y: int)
    requires x >= 0 && y >= 0
    ensures x * y >= 0
  {
  }

  lemma Distrib(x: int, y: int, z: int)
    ensures (x + y) * z == x * z + y * z
  {
  }

  lemma Assoc(x: int, y: int, z: int)
    ensures (x * y) * z == x * (y * z)
  {
  }

  /** Quotient and remainder are determined by `x == q * d + r`, `0 <= r < d`. */
  lemma DivUnique(x: int, d: int, q: int, r: int)
    requires d > 0 && x == q * d + r && 0 <= r < d
    ensures x / d == q && x % d == r
  {
    var q', r' := x / d, x % d;
    if q' > q {
      MulNonneg(q' - q - 1, d);
      assert false;
    } else if q' < q {
      MulNonneg(q - q' - 1, d);
      assert false;
    }
  }

  /** Euclidean division by a positive divisor. */
  lemma DivMod(x: int, d: int)
    requires d > 0
    ensures x == x / d * d + x % d && 0 <= x % d < d
  {
  }

  /** Adding the power of two `a` to a number whose `a` bit is clear leaves
      the bit for the other power of two `c` as it was. */
  lemma CarryFree(x: nat, a: nat, c: nat)
    requires 0 < a && 0 < c && a != c && x / a % 2 == 0
    requires a < c ==> c % (2 * a) == 0
    requires c < a ==> a % (2 * c) == 0
    ensures (x + a) / c % 2 == x / c % 2
  {
    if c < a {
      CarryBelow(x, a, c);
    } else {
      CarryAbove(x, a, c);
    }
  }

  /** A higher bit adds an even amount to the quotient by a lower one. */
  lemma CarryBelow(x: nat, a: nat, c: nat)
    requires 0 < c < a && a % (2 * c) == 0
    ensures (x + a) / c % 2 == x / c % 2
  {
    var big := EvenMultiple(a, c);
    var q, rem := x / c, x % c;
    DivMod(x, c);
    AddMultiple(x, c, q, rem, big, a);
    DivUnique(x + a, c, q + big, rem);
  }

  lemma AddMultiple(x: int, c: int, q: int, rem: int, big: int, a: int)
    requires x == q * c + rem && a == big * c
    ensures x + a == (q + big) * c + rem
  {
    Distrib(q, big, c);
  }

  /** A clear lower bit absorbs the addition below the higher one. */
  lemma CarryAbove(x: nat, a: nat, c: nat)
    requires 0 < a < c && c % (2 * a) == 0 && x / a % 2 == 0
    ensures (x + a) / c % 2 == x / c % 2
  {
    var big := EvenMultiple(c, a);
    var q, rem := x / c, x % c;
    var s, t := rem / a, rem % a;
    Regroup(x, a, big, q, rem, s, t);
    LowQuotientEven(x, a, big, q, s, t);
    NoCarry(a, s, t, big);
    DivUnique(x + a, c, q, rem + a);
  }

  /** `c` is an even multiple `big` of `a`. */
  lemma EvenMultiple(c: nat, a: nat) returns (big: nat)
    requires 0 < a && c % (2 * a) == 0
    ensures c == big * a && big % 2 == 0
  {
    var m := c / (2 * a);
    assert c == m * (2 * a);
    Assoc(m, 2, a);
    big := m * 2;
  }

  /** Dividing by `big * a` and then the remainder by `a` splits `x` in three. */
  lemma Regroup(x: nat, a: nat, big: nat, q: int, rem: int, s: int, t: int)
    requires 0 < a && 0 < big
    requires x == q * (big * a) + rem && rem == s * a + t
    ensures x == (q * big + s) * a + t
  {
    Assoc(q, big, a);
    Distrib(q * big, s, a);
  }

  /** When `x == (q * big + s) * a + t` with `big` even and the `a` bit of
      `x` clear, `s` is even. */
  lemma LowQuotientEven(x: nat, a: nat, big: nat, q: int, s: int, t: int)
    requires 0 < a && 0 <= t < a && big % 2 == 0 && x / a % 2 == 0
    requires x == (q * big + s) * a + t
    ensures s % 2 == 0
  {
    DivUnique(x, a, q * big + s, t);
    var m := big / 2;
    assert q * big == 2 * (q * m) by {
      assert big == m * 2;
      Assoc(q, m, 2);
    }
  }

  /** With `s` and `big` even and `s * a + t < big * a`, one more `a` still fits. */
  lemma NoCarry(a: int, s: int, t: int, big: int)
    requires 0 < a && 0 <= t < a && 0 <= s && s % 2 == 0 && big % 2 == 0 && s * a + t < big * a
    ensures s * a + t + a < big * a
  {
    if s >= big {
      MulNonneg(s - big, a);
      Distrib(s - big, big, a);
      assert false;
    }
    MulNonneg(big - s - 2, a);
    Distrib(s + 2, big - s - 2, a);
    Distrib(s, 2, a);
  }
}
