/** Quotients, remainders and sequences: small facts that several components need. */
module Arithmetic {

  lemma {:induction false} ProductStep(p: nat, q: nat, d: nat)
    requires p < q
    ensures p * d + d <= q * d
    decreases q
  {
    assert q * d == (q - 1) * d + d;
    if p < q - 1 {
      ProductStep(p, q - 1, d);
    }
  }

  /** There is only one way to divide with a remainder. */
  lemma QuotientUnique(a: nat, q: nat, d: nat, r: nat)
    requires a == q * d + r && r < d
    ensures a / d == q && a % d == r
  {
    var p := a / d;
    assert a == p * d + a % d;
    if q < p {
      ProductStep(q, p, d);
    } else if p < q {
      ProductStep(p, q, d);
    }
  }

  lemma ProductOrder(a: nat, b: nat, c: nat)
    ensures (a * b) * c == a * (b * c)
  {
  }

  lemma QuotientOrder(a: nat, b: nat, d: nat)
    requires a <= b && d > 0
    ensures a / d <= b / d
  {
    if b / d < a / d {
      ProductStep(b / d, a / d, d);
    }
  }

  lemma Regroup<T>(a: seq<T>, b: seq<T>, c: seq<T>)
    ensures (a + b) + c == a + (b + c)
  {
  }
}
