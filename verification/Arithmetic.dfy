/** Machine words, and integer facts that need a nudge. */
module Arithmetic {

  /** The number of 64-bit words. */
  const WORDS: nat := 0x1_0000_0000_0000_0000

  lemma RemainderUnique(a: int, q: int, r: int, m: nat)
    requires m > 0 && 0 <= r < m && a == m * q + r
    ensures a % m == r
  {
    var d := a / m - q;
    assert m * d == r - a % m;
    MultipleBounds(m, d);
  }

  lemma DivMod(a: nat, b: nat)
    requires b > 0
    ensures a == b * (a / b) + a % b && a % b < b
  {
  }

  lemma MultipleBounds(m: nat, d: int)
    ensures d >= 1 ==> m * d >= m
    ensures d <= -1 ==> m * d <= 0 - m
  {
  }

  lemma Distribute(k: int, a: int, x: int, b: int)
    ensures k * (a * x + b) == (k * a) * x + k * b
  {
    assert k * (a * x + b) == k * (a * x) + k * b;
    assert k * (a * x) == (k * a) * x;
  }

  lemma DivUnique(a: nat, q: nat, r: nat, m: nat)
    requires r < m && a == m * q + r
    ensures a / m == q
  {
    RemainderUnique(a, q, r, m);
    var d := a / m - q;
    assert m * d == 0;
    MultipleBounds(m, d);
  }

  lemma TwoRemainders(b: nat, c: nat, q: nat, r: nat, s: nat)
    requires r < b && s < c
    ensures b * (c * q + s) + r == (b * c) * q + (b * s + r)
    ensures b * s + r < b * c
  {
    Distribute(b, c, q, s);
    assert b * c == b * s + b * (c - s);
    MultipleBounds(b, c - s);
  }

  lemma DivByProduct(a: nat, b: nat, c: nat, p: nat, q: nat, r: nat, s: nat)
    requires r < b && s < c && a == b * p + r && p == c * q + s
    ensures b * c > 0 && a / (b * c) == q
  {
    TwoRemainders(b, c, q, r, s);
    DivUnique(a, q, b * s + r, b * c);
  }

  /** (a / b) / c == a / (b * c). */
  lemma DivDiv(a: nat, b: nat, c: nat)
    requires b > 0 && c > 0
    ensures b * c > 0 && a / (b * c) == a / b / c
  {
    DivMod(a, b);
    DivMod(a / b, c);
    DivByProduct(a, b, c, a / b, a / b / c, a % b, a / b % c);
  }
}
