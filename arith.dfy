/** Integer division facts the block arithmetic needs. */
module Arith {

  /** `⌈a / b⌉`: the model of `Math.Ceiling((double)a / b)` for a positive `b`. */
  function CeilDiv(a: nat, b: nat): nat
    requires b > 0
  {
    (a + b - 1) / b
  }

  /** The ceiling is the least multiple count that covers `a`. */
  lemma CeilDivBounds(a: nat, b: nat)
    requires b > 0
    ensures a <= CeilDiv(a, b) * b && (CeilDiv(a, b) - 1) * b < a
  {
    var n, r := (a + b - 1) / b, (a + b - 1) % b;
    assert a + b - 1 == n * b + r;
    assert (n - 1) * b == n * b - b;
  }

  lemma MulAtLeast(d: int, b: int)
    requires d >= 1 && b > 0
    ensures d * b >= b
  {
    assert d * b == (d - 1) * b + b;
  }

  /** Quotient and remainder are determined by `x == q * b + r, 0 <= r < b`. */
  lemma DivUnique(x: int, b: int, q: int, r: int)
    requires b > 0 && 0 <= r < b && x == q * b + r
    ensures x / b == q && x % b == r
  {
    var q', r' := x / b, x % b;
    assert x == q' * b + r';
    assert (q - q') * b == r' - r;
    if q > q' {
      MulAtLeast(q - q', b);
    } else if q < q' {
      MulAtLeast(q' - q, b);
    }
  }

  /** Taking one block off the front lowers the quotient by one. */
  lemma DivStep(x: nat, b: nat)
    requires 0 < b <= x
    ensures (x - b) / b == x / b - 1 && (x - b) % b == x % b
  {
    var q, r := x / b, x % b;
    assert x - b == (q - 1) * b + r;
    DivUnique(x - b, b, q - 1, r);
  }

  /** The ceiling is the floor, plus one when there is a remainder. */
  lemma CeilDivFloor(x: nat, b: nat)
    requires 0 < b
    ensures CeilDiv(x, b) == if x % b == 0 then x / b else x / b + 1
  {
    var q, r := x / b, x % b;
    assert x == q * b + r;
    if r == 0 {
      DivUnique(x + b - 1, b, q, b - 1);
    } else {
      DivUnique(x + b - 1, b, q + 1, r - 1);
    }
  }
}
