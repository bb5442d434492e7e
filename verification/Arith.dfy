/** Division facts used throughout; Dafny does not find them unaided when the divisor is a variable. */
module Arith {

  lemma MulMono(a: int, b: int, c: nat)
    requires a <= b
    ensures a * c <= b * c
  {}

  /** Quotient and remainder are unique. */
  lemma DivUnique(q: int, d: nat, r: nat)
    requires r < d
    ensures (q * d + r) / d == q && (q * d + r) % d == r
  {
    var x := q * d + r;
    assert (x / d - q) * d == r - x % d;
    if x / d > q {
      MulMono(1, x / d - q, d);
    } else if x / d < q {
      MulMono(x / d - q, -1, d);
    }
  }

  lemma DivMono(i: nat, j: nat, d: nat)
    requires 0 < d && i <= j
    ensures i / d <= j / d
  {
    if j / d + 1 <= i / d {
      MulMono(j / d + 1, i / d, d);
    }
  }

  lemma DivSplit(i: int, d: nat)
    requires 0 < d
    ensures i == (i / d) * d + i % d
  {}

  lemma DivNext(i: nat, d: nat)
    requires 0 < d
    ensures (i + d) / d == i / d + 1
  {
    var q, r := i / d, i % d;
    DivSplit(i, d);
    assert i + d == (q + 1) * d + r;
    DivUnique(q + 1, d, r);
  }
}
