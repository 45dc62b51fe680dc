/** Small facts about non-linear integer arithmetic that the proofs below rely on. */
module Arith {

  lemma MulLeRight(a: int, b: int, c: int)
    requires a <= b && 0 <= c
    ensures a * c <= b * c
  {
  }

  lemma MulSucc(a: int, b: int)
    ensures (a + 1) * b == a * b + b
  {
  }

  lemma MulScale4(a: int, b: int)
    ensures 4 * (a * b) == a * (4 * b)
  {
  }

  lemma MulNonneg(a: int, b: int)
    requires 0 <= a && 0 <= b
    ensures 0 <= a * b
  {
  }

  /** A 16-bit difference squared and shifted right by two is at most 0xFFFF^2 / 4, and is zero only
      for a difference of at most one. */
  lemma SquareBound(d: nat)
    requires d < 0x1_0000
    ensures d * d / 4 <= 0x3FFF_8000
    ensures d * d / 4 == 0 <==> d <= 1
  {
    MulLeRight(d, 0xFFFF, d);
    MulLeRight(d, 0xFFFF, 0xFFFF);
    if d >= 2 {
      MulLeRight(2, d, d);
      MulLeRight(2, d, 2);
    }
  }

  lemma Mod4Mul(k: int)
    ensures (4 * k) % 4 == 0
  {
  }

  lemma MulZero(a: int)
    ensures a * 0 == 0
  {
  }

  lemma MulComm(a: int, b: int)
    ensures a * b == b * a
  {
  }

  lemma MulNegLeft(a: int, b: int)
    ensures (-a) * b == -(a * b) && a * (-b) == -(a * b) && (-a) * (-b) == a * b
  {
  }

  /** Euclidean division is determined by quotient and remainder. */
  lemma DivModUnique(n: int, d: int, q: int, r: int)
    requires 0 < d && 0 <= r < d && n == q * d + r
    ensures n / d == q && n % d == r
  {
    var q', r' := n / d, n % d;
    assert n == q' * d + r';
    if q' < q {
      MulLeRight(q' + 1, q, d);
      assert false;
    } else if q < q' {
      MulLeRight(q + 1, q', d);
      assert false;
    }
  }

  lemma MulLeCancel(a: int, b: int, c: int)
    requires 0 < c && a * c <= b * c
    ensures a <= b
  {
    if b < a {
      MulLeRight(b + 1, a, c);
    }
  }

  lemma MulLtCancel(a: int, b: int, c: int)
    requires 0 <= c && a * c < b * c
    ensures a < b && 0 < c
  {
    if b <= a {
      MulLeRight(b, a, c);
    }
  }
}
