/** Machine words as naturals, and bitwise operators on their digits. */
module Bits {
  type Byte = b: nat | b < 256 witness 0

  const WORD32: nat := 0x1_0000_0000

  /** Two to the power of n. */
  function Pow2(n: nat): (p: nat)
    ensures p > 0
  {
    if n == 0 then 1 else 2 * Pow2(n - 1)
  }

  /** Bit k of x: the C expression (x >> k) & 1. */
  predicate Bit(x: nat, k: nat)
  {
    if k == 0 then x % 2 == 1 else Bit(x / 2, k - 1)
  }

  lemma NibbleUp(x: nat, k: nat)
    ensures Bit(x, k + 4) == Bit(x / 16, k)
  {
    assert Bit(x, k + 4) == Bit(x / 2, k + 3) == Bit(x / 2 / 2, k + 2) == Bit(x / 2 / 2 / 2, k + 1);
    assert x / 2 / 2 / 2 / 2 == x / 16;
  }

  /** x with bit k forced: x | (1 << k) or x & ~(1 << k). */
  function WithBit(x: nat, k: nat, on: bool): nat
  {
    if k == 0 then x - x % 2 + (if on then 1 else 0) else x % 2 + 2 * WithBit(x / 2, k - 1, on)
  }

  lemma {:induction false} WithBitBits(x: nat, k: nat, on: bool, j: nat)
    ensures Bit(WithBit(x, k, on), j) == if j == k then on else Bit(x, j)
  {
    var y := WithBit(x, k, on);
    if k == 0 {
      assert y / 2 == x / 2;
    } else {
      assert y / 2 == WithBit(x / 2, k - 1, on) && y % 2 == x % 2;
      if j > 0 {
        WithBitBits(x / 2, k - 1, on, j - 1);
      }
    }
  }

  lemma {:induction false} WithBitBound(x: nat, k: nat, on: bool, n: nat)
    requires k < n && x < Pow2(n)
    ensures WithBit(x, k, on) < Pow2(n)
  {
    if k > 0 {
      WithBitBound(x / 2, k - 1, on, n - 1);
    } else {
      assert Pow2(n) == 2 * Pow2(n - 1);
    }
  }

  /** x & y */
  function And(x: nat, y: nat): (r: nat)
    ensures r <= x && r <= y
    decreases x
  {
    if x == 0 || y == 0 then 0
    else 2 * And(x / 2, y / 2) + (if x % 2 == 1 && y % 2 == 1 then 1 else 0)
  }

  lemma {:induction false} AndBits(x: nat, y: nat, k: nat)
    ensures Bit(And(x, y), k) == (Bit(x, k) && Bit(y, k))
  {
    if x == 0 || y == 0 {
      ZeroBit(k);
    } else {
      var r := And(x, y);
      assert r / 2 == And(x / 2, y / 2);
      if k > 0 {
        AndBits(x / 2, y / 2, k - 1);
      }
    }
  }

  /** x & ~mask */
  function Cleared(x: nat, mask: nat): (r: nat)
    ensures r <= x
    decreases x
  {
    if x == 0 then 0
    else 2 * Cleared(x / 2, mask / 2) + (if x % 2 == 1 && mask % 2 == 0 then 1 else 0)
  }

  lemma {:induction false} ClearedBits(x: nat, mask: nat, k: nat)
    ensures Bit(Cleared(x, mask), k) == (Bit(x, k) && !Bit(mask, k))
  {
    if x == 0 {
      ZeroBit(k);
    } else {
      assert Cleared(x, mask) / 2 == Cleared(x / 2, mask / 2);
      if k > 0 {
        ClearedBits(x / 2, mask / 2, k - 1);
      }
    }
  }

  lemma ZeroBit(k: nat)
    ensures !Bit(0, k)
  {
  }

  lemma {:induction false} AndAssociates(x: nat, y: nat, z: nat)
    ensures And(And(x, y), z) == And(x, And(y, z))
    decreases x
  {
    if x != 0 && y != 0 && z != 0 {
      AndAssociates(x / 2, y / 2, z / 2);
      var l, r := And(x, y), And(y, z);
      assert l / 2 == And(x / 2, y / 2) && r / 2 == And(y / 2, z / 2);
      AndHalves(l, z);
      AndHalves(x, r);
    }
  }

  /** The recursion of And holds at zero operands too. */
  lemma AndHalves(x: nat, y: nat)
    ensures And(x, y) == 2 * And(x / 2, y / 2) + (if x % 2 == 1 && y % 2 == 1 then 1 else 0)
  {
  }

  lemma {:induction false} AndSelf(x: nat)
    ensures And(x, x) == x
  {
    if x != 0 {
      AndSelf(x / 2);
    }
  }

  /** Anding with all ones keeps a word of that width. */
  lemma {:induction false} AndOnes(x: nat, n: nat)
    requires x < Pow2(n)
    ensures And(x, Pow2(n) - 1) == x == And(Pow2(n) - 1, x)
  {
    if x != 0 {
      AndOnes(x / 2, n - 1);
      assert (Pow2(n) - 1) / 2 == Pow2(n - 1) - 1;
    }
  }

  lemma AndErased(b: Byte)
    ensures And(b, 0xff) == b == And(0xff, b)
  {
    Pow2Byte();
    AndOnes(b, 8);
  }

  lemma Pow2Byte()
    ensures Pow2(8) == 256
  {
    assert Pow2(4) == 16;
  }

  /** x ^ y */
  function Xor(x: nat, y: nat): nat
    decreases x + y
  {
    if x == 0 && y == 0 then 0
    else 2 * Xor(x / 2, y / 2) + (if x % 2 == y % 2 then 0 else 1)
  }

  lemma {:induction false} XorBits(x: nat, y: nat, k: nat)
    ensures Bit(Xor(x, y), k) == (Bit(x, k) != Bit(y, k))
  {
    if x == 0 && y == 0 {
      ZeroBit(k);
    } else {
      assert Xor(x, y) / 2 == Xor(x / 2, y / 2);
      if k > 0 {
        XorBits(x / 2, y / 2, k - 1);
      }
    }
  }

  lemma {:induction false} XorBound(x: nat, y: nat, n: nat)
    requires x < Pow2(n) && y < Pow2(n)
    ensures Xor(x, y) < Pow2(n)
  {
    if n > 0 && !(x == 0 && y == 0) {
      XorBound(x / 2, y / 2, n - 1);
    }
  }

  lemma {:induction false} XorTwice(x: nat, y: nat)
    ensures Xor(Xor(x, y), y) == x
    decreases x + y
  {
    if !(x == 0 && y == 0) {
      XorTwice(x / 2, y / 2);
      assert Xor(x, y) / 2 == Xor(x / 2, y / 2);
    }
  }

  // ------------------------------------------------ words sent one bit at a time

  /** The number whose binary digits, most significant first, are bs. */
  function FromBits(bs: seq<bool>): nat
  {
    if bs == [] then 0
    else 2 * FromBits(bs[..|bs| - 1]) + (if bs[|bs| - 1] then 1 else 0)
  }

  /** The n low bits of x, most significant first. */
  function ToBits(x: nat, n: nat): (bs: seq<bool>)
    ensures |bs| == n
  {
    if n == 0 then [] else ToBits(x / 2, n - 1) + [x % 2 == 1]
  }

  lemma FromBitsBound(bs: seq<bool>)
    ensures FromBits(bs) < Pow2(|bs|)
  {
  }

  lemma {:induction false} FromToBits(x: nat, n: nat)
    requires x < Pow2(n)
    ensures FromBits(ToBits(x, n)) == x
  {
    if n > 0 {
      FromToBits(x / 2, n - 1);
      assert ToBits(x, n)[..n - 1] == ToBits(x / 2, n - 1);
    }
  }

  lemma {:induction false} ToFromBits(bs: seq<bool>)
    ensures ToBits(FromBits(bs), |bs|) == bs
  {
    if bs != [] {
      ToFromBits(bs[..|bs| - 1]);
      assert bs == bs[..|bs| - 1] + [bs[|bs| - 1]];
    }
  }

  /** The leading bit says whether the word is in the upper half. */
  lemma {:induction false} LeadingBit(x: nat, n: nat)
    requires 0 < n && x < Pow2(n)
    ensures ToBits(x, n)[0] == (x >= Pow2(n - 1))
  {
    if n > 1 {
      LeadingBit(x / 2, n - 1);
      assert ToBits(x, n)[0] == ToBits(x / 2, n - 1)[0];
    }
  }

  lemma {:induction false} DropLeadingBit(x: nat, n: nat)
    requires 0 < n && x < Pow2(n)
    ensures ToBits(if x >= Pow2(n - 1) then x - Pow2(n - 1) else x, n - 1) == ToBits(x, n)[1..]
  {
    if n > 1 {
      DropLeadingBit(x / 2, n - 1);
      var y := if x >= Pow2(n - 1) then x - Pow2(n - 1) else x;
      assert y % 2 == x % 2 && y / 2 == if x / 2 >= Pow2(n - 2) then x / 2 - Pow2(n - 2) else x / 2;
      assert ToBits(x, n)[1..] == ToBits(x / 2, n - 1)[1..] + [x % 2 == 1];
    }
  }

  lemma ModOnce(a: nat, m: nat)
    requires 0 < m && a < 2 * m
    ensures a % m == if a < m then a else a - m
  {
    if a < m {
      assert a / m == 0;
    } else {
      assert a / m == 1;
    }
  }

  /** x without its leading bit, out of n bits. */
  function Tail(x: nat, n: nat): nat
    requires 0 < n
  {
    if x >= Pow2(n - 1) then x - Pow2(n - 1) else x
  }

  /** Shifting a word left within its width drops the leading bit and appends a zero. */
  lemma ShiftLeft(x: nat, n: nat)
    requires 0 < n && x < Pow2(n)
    ensures x * 2 % Pow2(n) == 2 * Tail(x, n)
    ensures ToBits(2 * Tail(x, n), n) == ToBits(x, n)[1..] + [false]
  {
    ShiftedWord(x, Pow2(n - 1));
    DropLeadingBit(x, n);
    var y := 2 * Tail(x, n);
    assert y / 2 == Tail(x, n) && y % 2 == 0;
  }

  lemma ShiftedWord(x: nat, half: nat)
    requires 0 < half && x < 2 * half
    ensures x * 2 % (2 * half) == if x >= half then 2 * (x - half) else 2 * x
  {
    ModOnce(x * 2, 2 * half);
  }
}
