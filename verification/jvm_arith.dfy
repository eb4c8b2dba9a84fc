/**
 * Integer division and remainder as the JVM computes them on Int and Long
 * (sections 15.17.2 and 15.17.3 of the Java Language Specification): the
 * quotient is rounded toward zero and the remainder takes the sign of the
 * dividend. Dafny's own / and % are Euclidean, so they are not used for
 * operands that may be negative.
 */
module JvmArith {

  function Abs(x: int): nat {
    if x < 0 then -x else x
  }

  /** `a / b` on the JVM. */
  function Quot(a: int, b: int): int
    requires b != 0
  {
    if (a < 0) == (b < 0) then Abs(a) / Abs(b) else -(Abs(a) / Abs(b))
  }

  /** `a % b` on the JVM. */
  function Rem(a: int, b: int): int
    requires b != 0
  {
    if a < 0 then -(Abs(a) % Abs(b)) else Abs(a) % Abs(b)
  }

  /**
   * The identity the JVM guarantees, `(a / b) * b + a % b == a`, together with
   * the bounds that make the pair unique: the remainder is smaller than the
   * divisor in magnitude and never has the opposite sign of the dividend.
   */
  lemma {:induction false} QuotRem(a: int, b: int)
    requires b != 0
    ensures Quot(a, b) * b + Rem(a, b) == a
    ensures Abs(Rem(a, b)) < Abs(b)
    ensures a >= 0 ==> Rem(a, b) >= 0
    ensures a <= 0 ==> Rem(a, b) <= 0
    ensures Abs(Quot(a, b) * b) <= Abs(a)
  {
    var n: int, d: int := Abs(a), Abs(b);
    var q: int, m: int := n / d, n % d;
    EuclidNat(n, d);
    var p := q * d;
    assert n == p + m && 0 <= m < d && 0 <= p;
    var qq := Quot(a, b);
    var r := Rem(a, b);
    if a >= 0 && b > 0 {
      assert qq == q && r == m;
      assert qq * b == p;
    } else if a >= 0 {
      assert qq == -q && b == -d && r == m;
      Signs(q, d);
      assert qq * b == p;
    } else if b > 0 {
      assert qq == -q && b == d && r == -m;
      Signs(q, d);
      assert qq * b == -p;
    } else {
      assert qq == q && b == -d && r == -m;
      Signs(q, d);
      assert qq * b == -p;
    }
  }

  lemma Signs(q: int, d: int)
    ensures (-q) * (-d) == q * d
    ensures (-q) * d == -(q * d)
    ensures q * (-d) == -(q * d)
  {
  }

  /** Euclidean division of a non-negative number by a positive one. */
  lemma EuclidNat(n: int, d: int)
    requires d > 0 && n >= 0
    ensures n == (n / d) * d + n % d && 0 <= n % d < d && n / d >= 0
  {
  }

  /** For a non-negative dividend and a positive divisor the JVM and Euclidean operators agree. */
  lemma NonNegativeAgrees(a: int, b: int)
    requires a >= 0 && b > 0
    ensures Quot(a, b) == a / b && Rem(a, b) == a % b
  {
  }
}
