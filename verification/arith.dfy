/** Small facts of integer arithmetic that the solver needs spelled out. */
module Arith {

  /** Quotient and remainder are unique. */
  lemma DivModUnique(i: int, p: int, q: int, r: int)
    requires p > 0 && 0 <= r < p
    requires i == q * p + r
    ensures i / p == q && i % p == r
  {
    var q', r' := i / p, i % p;
    assert q' * p + r' == q * p + r;
    assert (q' - q) * p == r - r';
    if q' > q {
      MulSucc(q, p);
      assert false;
    } else if q' < q {
      MulSucc(q', p);
      assert false;
    }
  }

  lemma MulComm(a: int, b: int)
    ensures a * b == b * a
  {
  }

  lemma MulAssoc(a: int, b: int, c: int)
    ensures a * (b * c) == (a * b) * c
  {
  }

  lemma MulSucc(a: int, e: int)
    ensures (a + 1) * e == a * e + e
  {
  }

  lemma MulCancelLt(a: int, b: int, e: int)
    requires e > 0
    requires a * e < b * e
    ensures a < b
  {
  }

  lemma MulMonoLe(a: int, b: int, e: int)
    requires e >= 0
    requires a <= b
    ensures a * e <= b * e
  {
  }

  /** Division by a positive number is monotone. */
  lemma DivMonotone(a: int, b: int, p: int)
    requires p > 0 && a <= b
    ensures a / p <= b / p
  {
    var qa, qb := a / p, b / p;
    MulComm(qa, p);
    MulComm(qb + 1, p);
    MulSucc(qb, p);
    MulCancelLt(qa, qb + 1, p);
  }
}
