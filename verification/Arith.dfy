/** Division and multiplication where both sides vary. */
module Arith {
  /** A product of natural numbers. */
  function Times(a: nat, b: nat): nat {
    a * b
  }

  lemma TimesSum(a: nat, b: nat, c: nat)
    ensures Times(a + b, c) == Times(a, c) + Times(b, c)
    ensures Times(1, c) == c && Times(0, c) == 0
  {
  }

  lemma MulMono(a: int, b: int, c: nat)
    requires a <= b
    ensures a * c <= b * c
  {
    Distribute(b - a, a, c);
    assert (b - a) * c >= 0;
  }

  lemma Distribute(a: int, b: int, c: int)
    ensures (a + b) * c == a * c + b * c
    ensures c * (a + b) == c * a + c * b
  {
  }

  /** The quotient, with its bounds. */
  function Div(a: nat, b: nat): (q: nat)
    requires b > 0
    ensures q == a / b
    ensures q <= a && q * b <= a < q * b + b
  {
    DivBounds(a, b);
    a / b
  }

  lemma DivBounds(a: nat, b: nat)
    requires b > 0
    ensures 0 <= a / b <= a
    ensures a / b * b <= a < a / b * b + b
  {
    var q, r := a / b, a % b;
    Euclid(a, b, q, r);
  }

  lemma Euclid(a: nat, b: nat, q: int, r: int)
    requires b > 0 && a == b * q + r && 0 <= r < b
    ensures 0 <= q <= a
    ensures q * b <= a < q * b + b
  {
    if q < 0 {
      MulMono(q, -1, b);
    } else {
      MulMono(1, b, q);
    }
  }

  /** Euclidean division is unique. */
  lemma DivUnique(a: nat, b: nat, q: nat, r: nat)
    requires r < b && a == q * b + r
    ensures a / b == q && a % b == r
  {
    Unique(b, a / b, a % b, q, r);
  }

  lemma Unique(b: nat, q: int, r: int, q': int, r': int)
    requires 0 <= r < b && 0 <= r' < b && b * q + r == q' * b + r'
    ensures q == q' && r == r'
  {
    if q < q' {
      MulMono(q + 1, q', b);
      Distribute(q, 1, b);
    } else if q > q' {
      MulMono(q' + 1, q, b);
      Distribute(q', 1, b);
    }
  }
}
