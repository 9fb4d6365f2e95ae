/** Small facts about multiplication and Euclidean division of naturals. */
module Arith {

  lemma MulAtLeast(x: int, d: int)
    requires x >= 1 && d >= 0
    ensures x * d >= d
  {
    assert x * d == d + (x - 1) * d;
  }

  /** The quotient and remainder of a division are the unique ones. */
  lemma DivUnique(a: int, d: int, q: int, m: int)
    requires d > 0 && 0 <= m < d && a == q * d + m
    ensures a / d == q && a % d == m
  {
    var q' := a / d;
    var m' := a % d;
    if q' > q {
      MulAtLeast(q' - q, d);
      assert false;
    } else if q' < q {
      MulAtLeast(q - q', d);
      assert false;
    }
  }

  lemma MulMonotone(a: int, b: int, d: int)
    requires a >= b && d >= 0
    ensures a * d >= b * d
  {
    assert a * d == b * d + (a - b) * d;
  }

  /** An index below `w * h` has a quotient by `h` below `w`. */
  lemma DivBelow(n: nat, w: nat, h: nat)
    requires n < w * h
    ensures h > 0 && n / h < w
  {
    if n / h >= w {
      MulMonotone(n / h, w, h);
      assert false;
    }
  }

  lemma Distribute(x: int, h: int)
    ensures (x + 1) * h == x * h + h
  {
  }

  /**
   * `n * h` as repeated addition; proofs that walk a grid column by column
   * use it to stay within linear arithmetic.
   */
  function Times(n: nat, h: nat): nat
  {
    if n == 0 then 0 else Times(n - 1, h) + h
  }

  lemma {:induction false} TimesIsMul(n: nat, h: nat)
    ensures Times(n, h) == n * h
  {
    if n > 0 {
      TimesIsMul(n - 1, h);
      Distribute(n - 1, h);
    }
  }

  lemma DivMod(a: int, d: int)
    requires d > 0
    ensures a == (a / d) * d + a % d && 0 <= a % d < d
  {
  }
}
