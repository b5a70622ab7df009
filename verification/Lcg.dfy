/**
 Wrapping linear congruential generators on 64-bit words, x' = a*x + c (mod 2^64), as the
 benchmark loops step them.  The result of this module is that a generator with
 a = 1 (mod 4) and odd c has full period: its low m bits repeat with period exactly 2^m,
 and so visit every m-bit residue.
 */
module Lcg {
  import opened Arithmetic

  function Pow2(m: nat): (p: nat)
    ensures p >= 1
  {
    if m == 0 then 1 else 2 * Pow2(m - 1)
  }

  lemma WordsIsPow2()
    ensures WORDS == Pow2(64)
  {
    assert Pow2(8) == 256;
    Pow2Split(8, 8);
    assert Pow2(16) == 65536;
    Pow2Split(16, 16);
    Pow2Split(32, 32);
  }

  lemma ModSum(a: nat, b: nat)
    ensures (a % WORDS + b) % WORDS == (a + b) % WORDS
  {
  }

  /** A multiplier and an increment. */
  datatype Generator = Generator(mul: nat, inc: nat) {
    ghost predicate FullPeriod() {
      mul % 4 == 1 && inc % 2 == 1
    }

    /** One `wrapping_mul(mul).wrapping_add(inc)`. */
    function Step(x: nat): (y: nat)
      ensures y < WORDS && y == (x * mul + inc) % WORDS
    {
      var wrapped := (x * mul) % WORDS;
      ModSum(x * mul, inc);
      (wrapped + inc) % WORDS
    }

    /** The state after n steps from x. */
    function After(x: nat, n: nat): nat
      decreases n
    {
      if n == 0 then x else Step(After(x, n - 1))
    }

    /** n unwrapped steps are the affine map y -> Scale(n)*y + Shift(n). */
    ghost function Scale(n: nat): nat {
      if n == 0 then 1 else mul * Scale(n - 1)
    }

    ghost function Shift(n: nat): nat {
      if n == 0 then 0 else mul * Shift(n - 1) + inc
    }
  }

  /** a and b differ by a multiple of m. */
  ghost predicate Congruent(a: int, b: int, m: nat) {
    exists q: int :: a == b + m * q
  }

  lemma CongruentMod(a: int, m: nat)
    requires m > 0
    ensures Congruent(a % m, a, m)
  {
    assert a % m == a + m * (-(a / m));
  }

  lemma CongruentSum(a: int, b: int, c: int, d: int, m: nat)
    requires Congruent(a, b, m) && Congruent(c, d, m)
    ensures Congruent(a + c, b + d, m)
  {
    var p: int :| a == b + m * p;
    var q: int :| c == d + m * q;
    assert a + c == b + d + m * (p + q);
  }

  lemma CongruentScaled(a: int, b: int, k: int, m: nat)
    requires Congruent(a, b, m)
    ensures Congruent(k * a, k * b, m)
  {
    var p: int :| a == b + m * p;
    assert k * a == k * b + m * (k * p) by { assert k * (m * p) == m * (k * p); }
  }

  lemma CongruentTransitive(a: int, b: int, c: int, m: nat)
    requires Congruent(a, b, m) && Congruent(b, c, m)
    ensures Congruent(a, c, m)
  {
    var p: int :| a == b + m * p;
    var q: int :| b == c + m * q;
    assert a == c + m * (p + q);
  }

  lemma CongruentSymmetric(a: int, b: int, m: nat)
    requires Congruent(a, b, m)
    ensures Congruent(b, a, m)
  {
    var p: int :| a == b + m * p;
    assert b == a + m * (-p);
  }

  /** For a positive modulus, congruence is equality of remainders. */
  lemma CongruentIffSameRemainder(a: int, b: int, m: nat)
    requires m > 0
    ensures Congruent(a, b, m) <==> a % m == b % m
  {
    if Congruent(a, b, m) {
      var q: int :| a == b + m * q;
      RemainderUnique(a, b / m + q, b % m, m);
    }
    if a % m == b % m {
      assert a == b + m * (a / m - b / m);
    }
  }

  lemma CongruentCoarser(a: int, b: int, d: nat, m: nat)
    requires Congruent(a, b, d * m)
    ensures Congruent(a, b, m)
  {
    var q: int :| a == b + d * m * q;
    assert a == b + m * (d * q) by { assert d * m * q == m * (d * q); }
  }

  lemma {:induction false} Pow2Split(i: nat, j: nat)
    ensures Pow2(i + j) == Pow2(i) * Pow2(j)
  {
    if i > 0 {
      Pow2Split(i - 1, j);
      assert Pow2(i + j) == 2 * (Pow2(i - 1) * Pow2(j));
    }
  }

  /** n wrapped steps agree with the affine map modulo every power of two up to 2^64. */
  lemma {:induction false} AfterIsAffine(g: Generator, x: nat, n: nat, m: nat)
    requires m <= 64
    ensures Congruent(g.After(x, n), g.Scale(n) * x + g.Shift(n), Pow2(m))
  {
    var M := Pow2(m);
    if n == 0 {
      assert g.After(x, 0) == g.Scale(0) * x + g.Shift(0) + M * 0;
    } else {
      var y := g.After(x, n - 1);
      var z := g.Scale(n - 1) * x + g.Shift(n - 1);
      AfterIsAffine(g, x, n - 1, m);
      StepIsAffine(g, y, m);
      CongruentScaled(y, z, g.mul, M);
      CongruentSum(g.mul * y, g.mul * z, g.inc, g.inc, M) by { assert g.inc == g.inc + M * 0; }
      CongruentTransitive(g.After(x, n), g.mul * y + g.inc, g.mul * z + g.inc, M);
      Distribute(g.mul, g.Scale(n - 1), x, g.Shift(n - 1));
    }
  }

  lemma StepIsAffine(g: Generator, x: nat, m: nat)
    requires m <= 64
    ensures Congruent(g.Step(x), g.mul * x + g.inc, Pow2(m))
  {
    var W := WORDS;
    WordsIsPow2();
    Pow2Split(64 - m, m);
    var w := (x * g.mul) % W;
    CongruentMod(x * g.mul, W);
    CongruentSum(w, x * g.mul, g.inc, g.inc, W) by { assert g.inc == g.inc + W * 0; }
    CongruentMod(w + g.inc, W);
    CongruentTransitive(g.Step(x), w + g.inc, x * g.mul + g.inc, W);
    CongruentCoarser(g.Step(x), x * g.mul + g.inc, Pow2(64 - m), Pow2(m));
  }

  lemma {:induction false} AfterAdd(g: Generator, x: nat, i: nat, j: nat)
    ensures g.After(x, i + j) == g.After(g.After(x, i), j)
    decreases j
  {
    if j > 0 {
      AfterAdd(g, x, i, j - 1);
      assert i + j - 1 == i + (j - 1);
    }
  }

  lemma AfterBounded(g: Generator, x: nat, n: nat)
    requires x < WORDS
    ensures g.After(x, n) < WORDS
  {
  }

  /** Composing the affine map of i steps with that of j steps. */
  lemma {:induction false} AffineAdd(g: Generator, i: nat, j: nat)
    ensures g.Scale(i + j) == g.Scale(i) * g.Scale(j)
    ensures g.Shift(i + j) == g.Scale(i) * g.Shift(j) + g.Shift(i)
    decreases i
  {
    if i > 0 {
      AffineAdd(g, i - 1, j);
      assert i + j - 1 == i - 1 + j;
      Distribute(g.mul, g.Scale(i - 1), g.Scale(j), 0);
      Distribute(g.mul, g.Scale(i - 1), g.Shift(j), g.Shift(i - 1));
    }
  }

  /** 2^m steps are y -> (1 + 4*2^m*p)*y + 2^m*q with q odd. */
  ghost predicate DoubledShape(g: Generator, m: nat, p: int, q: int) {
    && g.Scale(Pow2(m)) == 1 + 4 * Pow2(m) * p
    && g.Shift(Pow2(m)) == Pow2(m) * q
    && q % 2 == 1
  }

  lemma {:induction false} Doubling(g: Generator, m: nat) returns (p: int, q: int)
    requires g.FullPeriod()
    ensures DoubledShape(g, m, p, q)
  {
    if m == 0 {
      p, q := g.mul / 4, g.inc;
      assert Pow2(0) == 1;
      assert g.Scale(1) == g.mul * g.Scale(0) == g.mul;
      assert g.Shift(1) == g.mul * g.Shift(0) + g.inc == g.inc;
    } else {
      var p0, q0 := Doubling(g, m - 1);
      var h := Pow2(m - 1);
      AffineAdd(g, h, h);
      p := p0 + 2 * h * p0 * p0;
      q := q0 * (1 + 2 * h * p0);
      SquareShape(h, p0);
      ShiftShape(h, p0, q0);
    }
  }

  lemma SquareShape(h: int, p: int)
    ensures (1 + 4 * h * p) * (1 + 4 * h * p) == 1 + 4 * (2 * h) * (p + 2 * h * p * p)
  {
    var t := h * p;
    assert 4 * h * p == 4 * t;
    assert (1 + 4 * t) * (1 + 4 * t) == 1 + 8 * t + 16 * (t * t);
    assert 4 * (2 * h) * (p + 2 * h * p * p) == 8 * (h * p) + 16 * (h * (h * p * p));
    assert h * (h * p * p) == t * t;
  }

  lemma ShiftShape(h: int, p: int, q: int)
    requires q % 2 == 1
    ensures (1 + 4 * h * p) * (h * q) + h * q == 2 * h * (q * (1 + 2 * h * p))
    ensures (q * (1 + 2 * h * p)) % 2 == 1
  {
    var t := h * p;
    var u := h * q;
    assert 4 * h * p == 4 * t && 2 * h * p == 2 * t;
    assert (1 + 4 * t) * u == u + 4 * (t * u);
    assert q * (1 + 2 * t) == q + 2 * (t * q);
    Distribute(h, 2 * t, q, q);
    Distribute(2 * t, h, q, 0);
  }

  /** 2^m steps leave the low m bits unchanged and flip bit m. */
  lemma PowerOfTwoSteps(g: Generator, x: nat, m: nat)
    requires g.FullPeriod() && m <= 64
    ensures Congruent(g.After(x, Pow2(m)), x, Pow2(m))
    ensures m < 64 ==> Congruent(g.After(x, Pow2(m)), x + Pow2(m), Pow2(m + 1))
  {
    var p, q := Doubling(g, m);
    var h := Pow2(m);
    var affine := g.Scale(h) * x + g.Shift(h);
    AffineOffset(h, p, q, x);
    AfterIsAffine(g, x, h, m);
    assert affine == x + h * (4 * p * x + q);
    CongruentTransitive(g.After(x, h), affine, x, h);
    if m < 64 {
      AfterIsAffine(g, x, h, m + 1);
      assert affine == (x + h) + 2 * h * (2 * p * x + q / 2);
      CongruentTransitive(g.After(x, h), affine, x + h, 2 * h);
    }
  }

  lemma AffineOffset(h: int, p: int, q: int, x: int)
    requires q % 2 == 1
    ensures (1 + 4 * h * p) * x + h * q == x + h * (4 * p * x + q)
    ensures (1 + 4 * h * p) * x + h * q == (x + h) + 2 * h * (2 * p * x + q / 2)
  {
    var t := p * x;
    assert 4 * h * p * x == h * (4 * t);
    assert 4 * p * x == 4 * t && 2 * p * x == 2 * t;
    assert (1 + 4 * h * p) * x == x + 4 * h * p * x;
    assert h * (4 * t + q) == h * (4 * t) + h * q;
    var r := q / 2;
    assert q == 2 * r + 1;
    assert h * q == 2 * (h * r) + h;
    assert 2 * h * (2 * t + r) == h * (4 * t) + 2 * (h * r);
  }

  lemma Periodic(g: Generator, x: nat, i: nat, m: nat)
    requires g.FullPeriod() && m <= 64
    ensures Congruent(g.After(x, i + Pow2(m)), g.After(x, i), Pow2(m))
    ensures m < 64 ==> Congruent(g.After(x, i + Pow2(m)), g.After(x, i) + Pow2(m), Pow2(m + 1))
  {
    AfterAdd(g, x, i, Pow2(m));
    PowerOfTwoSteps(g, g.After(x, i), m);
  }

  /** The low m bits after i steps depend only on i modulo 2^m. */
  lemma {:induction false} ReducedIndex(g: Generator, x: nat, i: nat, m: nat)
    requires g.FullPeriod() && m <= 64
    ensures Congruent(g.After(x, i), g.After(x, i % Pow2(m)), Pow2(m))
    decreases i
  {
    var h := Pow2(m);
    if i < h {
      RemainderUnique(i, 0, i, h);
      assert g.After(x, i) == g.After(x, i) + h * 0;
    } else {
      var k: nat := i - h;
      ReducedIndex(g, x, k, m);
      Periodic(g, x, k, m);
      SubtractModulus(k, h);
      CongruentTransitive(g.After(x, i), g.After(x, k), g.After(x, i % h), h);
    }
  }

  lemma SubtractModulus(k: nat, h: nat)
    requires h > 0
    ensures (k + h) % h == k % h
  {
    RemainderUnique(k + h, k / h + 1, k % h, h);
  }

  lemma NoHalfPeriod(h: nat, a: int)
    requires h >= 1
    ensures !Congruent(a + h, a, 2 * h)
  {
    if Congruent(a + h, a, 2 * h) {
      var q: int :| a + h == a + 2 * h * q;
      MultipleBounds(2 * h, q);
      assert false;
    }
  }

  /** Within one period no two states agree on their low m bits. */
  lemma {:induction false} DistinctInPeriod(g: Generator, x: nat, i: nat, j: nat, m: nat)
    requires g.FullPeriod() && m <= 64
    requires i <= j < Pow2(m)
    requires Congruent(g.After(x, i), g.After(x, j), Pow2(m))
    ensures i == j
    decreases m, 0
  {
    if m > 0 {
      var h := Pow2(m - 1);
      CongruentCoarser(g.After(x, i), g.After(x, j), 2, h);
      SameLowBits(g, x, i, j, m - 1);
      assert i % h == j % h;
      if i != j {
        assert j == i + h by { IndexGap(i, j, h); }
        Periodic(g, x, i, m - 1);
        CongruentSymmetric(g.After(x, j), g.After(x, i) + h, 2 * h);
        CongruentSymmetric(g.After(x, i), g.After(x, j), 2 * h);
        CongruentTransitive(g.After(x, i) + h, g.After(x, j), g.After(x, i), 2 * h);
        NoHalfPeriod(h, g.After(x, i));
        assert false;
      }
    }
  }

  lemma IndexGap(i: nat, j: nat, h: nat)
    requires h > 0 && i < j < 2 * h && i % h == j % h
    ensures j == i + h
  {
    var d := j / h - i / h;
    assert j - i == h * d;
    assert d == 1 by {
      MultipleBounds(h, d - 1);
      MultipleBounds(h, d);
      assert h * (d - 1) == h * d - h;
    }
  }

  lemma {:induction false} SameLowBits(g: Generator, x: nat, i: nat, j: nat, m: nat)
    requires g.FullPeriod() && m <= 64
    requires Congruent(g.After(x, i), g.After(x, j), Pow2(m))
    ensures i % Pow2(m) == j % Pow2(m)
    decreases m, 1
  {
    var h := Pow2(m);
    var i', j' := i % h, j % h;
    ReducedIndex(g, x, i, m);
    ReducedIndex(g, x, j, m);
    CongruentSymmetric(g.After(x, i), g.After(x, i'), h);
    CongruentTransitive(g.After(x, i'), g.After(x, i), g.After(x, j), h);
    CongruentTransitive(g.After(x, i'), g.After(x, j), g.After(x, j'), h);
    if i' <= j' {
      DistinctInPeriod(g, x, i', j', m);
    } else {
      CongruentSymmetric(g.After(x, i'), g.After(x, j'), h);
      DistinctInPeriod(g, x, j', i', m);
    }
  }

  /** The low m bits have period exactly 2^m, from every seed. */
  lemma LowBitsPeriod(g: Generator, x: nat, i: nat, j: nat, m: nat)
    requires g.FullPeriod() && m <= 64
    ensures g.After(x, i) % Pow2(m) == g.After(x, j) % Pow2(m) <==> i % Pow2(m) == j % Pow2(m)
  {
    var h := Pow2(m);
    CongruentIffSameRemainder(g.After(x, i), g.After(x, j), h);
    if i % h == j % h {
      ReducedIndex(g, x, i, m);
      ReducedIndex(g, x, j, m);
      CongruentSymmetric(g.After(x, j), g.After(x, j % h), h);
      CongruentTransitive(g.After(x, i), g.After(x, i % h), g.After(x, j), h);
    } else if Congruent(g.After(x, i), g.After(x, j), h) {
      SameLowBits(g, x, i, j, m);
      assert false;
    }
  }

  /** Every m-bit residue is reached in fewer than 2^m steps, from every seed. */
  lemma {:induction false} ReachesResidue(g: Generator, x: nat, y: nat, m: nat) returns (n: nat)
    requires g.FullPeriod() && m <= 64
    ensures n < Pow2(m) && Congruent(g.After(x, n), y, Pow2(m))
  {
    if m == 0 {
      n := 0;
      assert x == y + 1 * (x - y);
    } else {
      var h := Pow2(m - 1);
      n := ReachesResidue(g, x, y, m - 1);
      Refine(g.After(x, n), y, h);
      if !Congruent(g.After(x, n), y, 2 * h) {
        Periodic(g, x, n, m - 1);
        CongruentTransitive(g.After(x, n + h), g.After(x, n) + h, y, 2 * h);
        n := n + h;
      }
    }
  }

  /** Congruence modulo h is congruence modulo 2h, possibly after adding h. */
  lemma Refine(a: int, b: int, h: nat)
    requires Congruent(a, b, h)
    ensures Congruent(a, b, 2 * h) || Congruent(a + h, b, 2 * h)
  {
    var q: int :| a == b + h * q;
    if q % 2 == 0 {
      Distribute(h, 2, q / 2, 0);
      assert a == b + 2 * h * (q / 2);
    } else {
      Distribute(h, 2, (q + 1) / 2, 0);
      assert a + h == b + h * (q + 1);
      assert a + h == b + 2 * h * ((q + 1) / 2);
    }
  }

  /** A full-period generator visits every 64-bit word, from every seed. */
  lemma ReachesWord(g: Generator, x: nat, y: nat) returns (n: nat)
    requires g.FullPeriod() && x < WORDS && y < WORDS
    ensures n < WORDS && g.After(x, n) == y
  {
    WordsIsPow2();
    n := ReachesResidue(g, x, y, 64);
    AfterBounded(g, x, n);
    CongruentIffSameRemainder(g.After(x, n), y, WORDS);
    RemainderUnique(y, 0, y, WORDS);
    RemainderUnique(g.After(x, n), 0, g.After(x, n), WORDS);
  }
}
