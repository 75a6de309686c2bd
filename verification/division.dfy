/** Facts about Euclidean division of non-negative integers, used to reason
    about the row positions the decimator picks. */
module DivisionFacts {

  /** Division is characterised by its quotient-remainder decomposition. */
  lemma DivUnique(x: int, m: int, q: int, rem: int)
    requires m > 0
    requires x == q * m + rem
    requires 0 <= rem < m
    ensures x / m == q
    ensures x % m == rem
  {
    var q', r' := x / m, x % m;
    assert x == q' * m + r';
    if q' > q {
      assert q' * m >= (q + 1) * m by { MulMonotone(q + 1, q', m); }
      assert false;
    } else if q' < q {
      assert q * m >= (q' + 1) * m by { MulMonotone(q' + 1, q, m); }
      assert false;
    }
  }

  /** Multiplication by a positive factor is monotone. */
  lemma MulMonotone(a: int, b: int, m: int)
    requires m > 0 && a <= b
    ensures a * m <= b * m
  {
    assert b * m - a * m == (b - a) * m;
  }

  /** The quotient times the divisor brackets the dividend. */
  lemma DivBracket(x: int, m: int)
    requires m > 0
    ensures (x / m) * m <= x < (x / m) * m + m
  {
  }

  /** Scaling dividend and divisor by the same positive factor keeps the quotient. */
  lemma DivScale(x: nat, m: int, c: int)
    requires m > 0 && c > 0
    ensures (c * x) / (c * m) == x / m
  {
    var q, rem := x / m, x % m;
    assert x == q * m + rem;
    assert c * x == q * (c * m) + c * rem;
    assert 0 <= c * rem < c * m;
    DivUnique(c * x, c * m, q, c * rem);
  }

  /** Division by a positive divisor is monotone in the dividend. */
  lemma DivMonotone(x: int, y: int, m: int)
    requires m > 0 && x <= y
    ensures x / m <= y / m
  {
    DivBracket(x, m);
    DivBracket(y, m);
    if x / m > y / m {
      MulMonotone(y / m + 1, x / m, m);
    }
  }

  /** A dividend below `m * bound` has a quotient below `bound`. */
  lemma DivBelow(x: int, m: int, bound: int)
    requires m > 0 && x < m * bound
    ensures x / m < bound
  {
    DivBracket(x, m);
    if x / m >= bound {
      MulMonotone(bound, x / m, m);
    }
  }

  /** Adding `d` to the dividend moves the quotient by `d / m` or `d / m + 1`. */
  lemma DivAddGap(a: nat, d: nat, m: int)
    requires m > 0
    ensures d / m <= (a + d) / m - a / m <= d / m + 1
  {
    var qa, ra := a / m, a % m;
    var qd, rd := d / m, d % m;
    assert a == qa * m + ra;
    assert d == qd * m + rd;
    if ra + rd < m {
      assert a + d == (qa + qd) * m + (ra + rd);
      DivUnique(a + d, m, qa + qd, ra + rd);
    } else {
      assert a + d == (qa + qd + 1) * m + (ra + rd - m);
      DivUnique(a + d, m, qa + qd + 1, ra + rd - m);
    }
  }
}
