/** Division and remainder of natural numbers. */
module Arithmetic {
  lemma MulMonotone(a: nat, b: nat, c: nat)
    requires a <= b
    ensures a * c <= b * c
  {
  }

  lemma QuotientUnique(a: nat, b: nat, q: nat, r: nat)
    requires b > 0 && a == q * b + r && r < b
    ensures a / b == q && a % b == r
  {
    var q', r' := a / b, a % b;
    assert a == q' * b + r';
    if q < q' {
      MulMonotone(q + 1, q', b);
    } else if q' < q {
      MulMonotone(q' + 1, q, b);
    }
  }

  lemma DivisionStep(a: nat, b: nat)
    requires b > 0
    ensures if a % b == b - 1 then (a + 1) / b == a / b + 1 && (a + 1) % b == 0
            else (a + 1) / b == a / b && (a + 1) % b == a % b + 1
  {
    var q, r := a / b, a % b;
    assert a == q * b + r;
    if r == b - 1 {
      assert a + 1 == (q + 1) * b + 0;
      QuotientUnique(a + 1, b, q + 1, 0);
    } else {
      QuotientUnique(a + 1, b, q, r + 1);
    }
  }
}
