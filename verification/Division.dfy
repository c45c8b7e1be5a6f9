/** Facts of products and floor division that the solver does not find by itself. */
module Division {

  lemma Distribute(a: int, x: int, y: int)
    ensures a * (x - y) == a * x - a * y
    ensures (a + 1) * x == a * x + x
  {
  }

  lemma DistributeSum(a: int, x: int, y: int)
    ensures a * (x + y) == a * x + a * y
    ensures (x + y) * a == x * a + y * a
  {
  }

  lemma Commute(a: int, b: int)
    ensures a * b == b * a
  {
  }

  lemma Associate(a: int, b: int, c: int)
    ensures (a * b) * c == a * (b * c)
  {
  }

  lemma MulMonotone(a: int, b: int, d: int)
    requires a <= b && 0 <= d
    ensures a * d <= b * d
  {
  }

  lemma DivisionOf(k: int, d: nat)
    requires 0 < d
    ensures k == (k / d) * d + k % d
  {
    assert k == d * (k / d) + k % d;
    Commute(d, k / d);
  }

  lemma DivUnique(s: int, d: int, q: int)
    requires 0 < d && q * d <= s < (q + 1) * d
    ensures s / d == q
  {
    var r := s / d;
    DivisionOf(s, d);
    Distribute(r, d, 0);
    if r < q {
      MulMonotone(r + 1, q, d);
    } else if q < r {
      MulMonotone(q + 1, r, d);
    }
  }

  lemma RemainderUnique(k: int, d: nat, q: int, r: nat)
    requires r < d && k == q * d + r
    ensures k % d == r
  {
    Distribute(q, d, 0);
    DivUnique(k, d, q);
    DivisionOf(k, d);
  }

  /** Counting up by one, a remainder goes up by one or back to 0. */
  lemma NextRemainder(k: int, d: nat)
    requires 0 < d
    ensures (k + 1) % d == if k % d == d - 1 then 0 else k % d + 1
  {
    var q, r := k / d, k % d;
    DivisionOf(k, d);
    if r == d - 1 {
      Distribute(q, d, 0);
      RemainderUnique(k + 1, d, q + 1, 0);
    } else {
      RemainderUnique(k + 1, d, q, r + 1);
    }
  }

  /** A remainder taken before an addition does not change the remainder of the sum. */
  lemma RemainderOfSum(a: int, b: int, d: nat)
    requires 0 < d
    ensures (a % d + b) % d == (a + b) % d
  {
    var q, s := a / d, a % d + b;
    DivisionOf(a, d);
    DivisionOf(s, d);
    DistributeSum(d, q, s / d);
    RemainderUnique(a + b, d, q + s / d, s % d);
  }
}
