/** The generator of the Minesweeper app has full period. */
module Lcg {
  import opened Bits

  const A: nat := 1103515245
  const C: nat := 12345

  function Next(x: nat): (r: nat)
    ensures r < WORD32
  {
    (x * A + C) % WORD32
  }

  function Iter(n: nat, x: nat): nat
  {
    if n == 0 then x else Iter(n - 1, Next(x))
  }

  // Without the reduction, n steps take x to Mul(n) * x + Add(n).

  function Mul(n: nat): nat
  {
    if n == 0 then 1 else Mul(n - 1) * A
  }

  function Add(n: nat): nat
  {
    if n == 0 then 0 else Add(n - 1) * A + C
  }

  function Unreduced(n: nat, x: int): int
  {
    Mul(n) * x + Add(n)
  }

  lemma {:induction false} MulSum(m: nat, n: nat)
    ensures Mul(m + n) == Mul(m) * Mul(n)
  {
    if n > 0 {
      MulSum(m, n - 1);
      assert Mul(m + n) == Mul(m + (n - 1)) * A;
      assert Mul(m) * Mul(n) == Mul(m) * Mul(n - 1) * A;
    }
  }

  lemma OneFactor(p: int, q: int, r: int)
    ensures (p * q + r) * A + C == p * A * q + (r * A + C)
  {
    assert p * q * A == p * A * q;
  }

  lemma {:induction false} AddSum(m: nat, n: nat)
    ensures Add(m + n) == Mul(n) * Add(m) + Add(n)
  {
    if n > 0 {
      AddSum(m, n - 1);
      assert Add(m + n) == Add(m + (n - 1)) * A + C;
      OneFactor(Mul(n - 1), Add(m), Add(n - 1));
    }
  }

  /** m steps, then n steps. */
  lemma UnreducedSum(m: nat, n: nat, x: int)
    ensures Unreduced(m + n, x) == Unreduced(n, Unreduced(m, x))
  {
    MulSum(m, n);
    AddSum(m, n);
    Compose(Mul(m), Mul(n), Add(m), Add(n), x);
  }

  lemma Compose(p: int, q: int, a: int, b: int, x: int)
    ensures p * q * x + (q * a + b) == q * (p * x + a) + b
  {
    assert q * (p * x + a) == q * (p * x) + q * a;
    assert p * q * x == q * (p * x);
  }

  /** After 2^k steps the multiplier is 1 modulo 2^(k+2) and the increment is an odd multiple
      of 2^k. */
  lemma {:induction false} Doubling(k: nat) returns (m: nat, c: nat)
    ensures Mul(Pow2(k)) == 1 + 4 * Pow2(k) * m
    ensures Add(Pow2(k)) == Pow2(k) * (2 * c + 1)
  {
    if k == 0 {
      m, c := 275878811, 6172;
      assert Mul(1) == Mul(0) * A && Add(1) == Add(0) * A + C;
    } else {
      var m', c' := Doubling(k - 1);
      var p := Pow2(k - 1);
      m, c := DoubleOnce(p, m', c');
    }
  }

  lemma DoubleOnce(p: nat, m': nat, c': nat) returns (m: nat, c: nat)
    requires Mul(p) == 1 + 4 * p * m' && Add(p) == p * (2 * c' + 1)
    ensures Mul(2 * p) == 1 + 4 * (2 * p) * m && Add(2 * p) == 2 * p * (2 * c + 1)
  {
    MulSum(p, p);
    AddSum(p, p);
    assert p + p == 2 * p;
    m := m' + 2 * p * m' * m';
    c := c' + p * m' * (2 * c' + 1);
    SquareStep(p, m');
    SumStep(p, m', c');
  }

  lemma SquareStep(p: nat, m: nat)
    ensures (1 + 4 * p * m) * (1 + 4 * p * m) == 1 + 4 * (2 * p) * (m + 2 * p * m * m)
  {
    var u := p * m;
    assert (1 + 4 * u) * (1 + 4 * u) == 1 + 8 * u + 16 * (u * u);
    assert u * u == p * (p * m * m);
    assert p * (2 * p * m * m) == 2 * (p * (p * m * m));
  }

  lemma SumStep(p: nat, m: nat, c: nat)
    ensures (1 + 4 * p * m) * (p * (2 * c + 1)) + p * (2 * c + 1) == 2 * p * (2 * (c + p * m * (2 * c + 1)) + 1)
  {
    var s := p * (2 * c + 1);
    var t := p * m * (2 * c + 1);
    assert 4 * p * m * s == 4 * p * (m * s);
    assert m * s == t;
    assert (1 + 4 * p * m) * s == s + 4 * p * m * s;
    assert 2 * p * (2 * (c + t) + 1) == 2 * p * (2 * c + 1) + 4 * (p * t);
    assert 4 * p * (m * s) == 4 * (p * t);
  }

  /** 2^k steps from z move it by 2^k modulo 2^(k+1). */
  lemma Jump(k: nat, z: int) returns (t: int)
    ensures Unreduced(Pow2(k), z) == z + Pow2(k) + 2 * Pow2(k) * t
  {
    var m, c := Doubling(k);
    t := 2 * m * z + c;
    JumpSum(Pow2(k), m, c, z);
  }

  lemma JumpSum(p: nat, m: nat, c: nat, z: int)
    ensures (1 + 4 * p * m) * z + p * (2 * c + 1) == z + p + 2 * p * (2 * m * z + c)
  {
    assert 4 * p * m * z == 2 * p * (2 * m * z);
    assert p * (2 * c + 1) == p + 2 * p * c;
    assert 2 * p * (2 * m * z + c) == 2 * p * (2 * m * z) + 2 * p * c;
  }

  lemma HalfMultiple(q: int, p: int, t: int)
    requires q % 2 == 0
    ensures q * p + 2 * p * t == (q / 2 + t) * (2 * p)
  {
    var h := q / 2;
    assert q == 2 * h;
    assert (h + t) * (2 * p) == h * (2 * p) + t * (2 * p);
  }

  lemma Spread(q: int, p: int)
    ensures (q + 1) * p == q * p + p
  {
  }

  lemma OddMultiple(q: int, p: int, t: int)
    requires q % 2 != 0
    ensures q * p + p + 2 * p * t == ((q + 1) / 2 + t) * (2 * p)
  {
    HalfMultiple(q + 1, p, t);
    Spread(q, p);
  }

  /** Fewer than 2^k steps from x reach y modulo 2^k. */
  lemma {:induction false} Reaches(k: nat, x: int, y: int) returns (n: nat, q: int)
    ensures n < Pow2(k) && Unreduced(n, x) == y + q * Pow2(k)
  {
    if k == 0 {
      n, q := 0, x - y;
    } else {
      var n', q' := Reaches(k - 1, x, y);
      var p := Pow2(k - 1);
      if q' % 2 == 0 {
        n, q := n', q' / 2;
        HalfMultiple(q', p, 0);
      } else {
        var t := Jump(k - 1, Unreduced(n', x));
        UnreducedSum(n', p, x);
        n, q := n' + p, (q' + 1) / 2 + t;
        OddMultiple(q', p, t);
      }
    }
  }

  lemma StepModulo(u: nat, r: nat)
    requires r == u % WORD32
    ensures Next(r) == (u * A + C) % WORD32
  {
    var q := u / WORD32;
    assert u == q * WORD32 + r;
    DropMultiple(r * A + C, q * A);
  }

  lemma DropMultiple(z: int, q: int)
    ensures (z + q * WORD32) % WORD32 == z % WORD32
  {
  }

  lemma {:induction false} IterLast(n: nat, x: nat)
    requires n > 0
    ensures Iter(n, x) == Next(Iter(n - 1, x))
  {
    if n > 1 {
      IterLast(n - 1, Next(x));
    }
  }

  lemma {:induction false} IterReduces(n: nat, x: nat)
    requires x < WORD32
    ensures Iter(n, x) == Unreduced(n, x) % WORD32
  {
    if n > 0 {
      IterReduces(n - 1, x);
      IterLast(n, x);
      var p := Mul(n - 1);
      assert p * A * x + (Add(n - 1) * A + C) == (p * x + Add(n - 1)) * A + C;
      StepModulo(Unreduced(n - 1, x), Iter(n - 1, x));
    }
  }

  /** Full period: every 32-bit value is at most 2^32 - 1 steps from any other. */
  lemma FullPeriod(x: nat, y: nat) returns (n: nat)
    requires x < WORD32 && y < WORD32
    ensures n < WORD32 && Iter(n, x) == y
  {
    var q;
    n, q := Reaches(32, x, y);
    Pow2Word();
    IterReduces(n, x);
    DropMultiple(y, q);
  }

  lemma Pow2Word()
    ensures Pow2(32) == WORD32
  {
    assert Pow2(8) == 256;
    assert Pow2(16) == 0x1_0000;
    assert Pow2(24) == 0x100_0000;
  }
}
