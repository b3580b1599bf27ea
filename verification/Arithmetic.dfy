// Machine word sizes, and facts about products, quotients and remainders of unbounded integers.
module Arithmetic {

  const U16: nat := 0x1_0000
  const U32: nat := 0x1_0000_0000
  const U64: nat := 0x1_0000_0000_0000_0000

  function Min(a: int, b: int): int { if a < b then a else b }

  function Max(a: int, b: int): int { if a < b then b else a }

  lemma MulLe(a: int, b: int, c: nat)
    requires a <= b
    ensures a * c <= b * c
  {
  }

  lemma MulLeBoth(a: nat, b: nat, c: nat, d: nat)
    requires a <= b && c <= d
    ensures a * c <= b * d
  {
    MulLe(a, b, c);
    MulLe(c, d, b);
    assert c * b == b * c && d * b == b * d;
  }

  lemma DivModUnique(q: nat, r: nat, b: nat)
    requires r < b
    ensures (q * b + r) / b == q && (q * b + r) % b == r
  {
    var n := q * b + r;
    var q', r' := n / b, n % b;
    assert n == q' * b + r';
    if q < q' {
      MulLe(q + 1, q', b);
    } else if q' < q {
      MulLe(q' + 1, q, b);
    }
  }

  lemma AddMultiple(a: nat, k: nat, m: nat)
    requires 0 < m
    ensures (k * m + a) % m == a % m
  {
    assert a == a / m * m + a % m;
    assert k * m + a / m * m == (k + a / m) * m;
    DivModUnique(k + a / m, a % m, m);
  }

  /** A product and a sum on 32 bits, cut at each step or at the end. */
  lemma CutAtEachStep(v: nat, d: nat)
    ensures (v % U32 * 10 + d) % U32 == (v * 10 + d) % U32
    ensures (v % U32 * 10 % U32 + d) % U32 == (v * 10 + d) % U32
  {
    var w := v % U32 * 10;
    assert v == v / U32 * U32 + v % U32;
    assert v * 10 + d == v / U32 * 10 * U32 + (w + d);
    AddMultiple(w + d, v / U32 * 10, U32);
    assert w + d == w / U32 * U32 + (w % U32 + d);
    AddMultiple(w % U32 + d, w / U32, U32);
  }
}
