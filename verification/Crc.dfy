/** CRC-16/XMODEM (section 2 of ITU-T V.41), as a register and as division. */
module Crc {
  import opened Bits
  import Modular

  type Register = r: seq<bool> | |r| == 16 witness ZEROS

  const ZEROS: seq<bool> := [false, false, false, false, false, false, false, false,
                             false, false, false, false, false, false, false, false]

  /** 0x1021 */
  const POLY: Register := [false, false, false, true, false, false, false, false,
                           false, false, true, false, false, false, false, true]

  function Xor(a: seq<bool>, b: seq<bool>): (r: seq<bool>)
    requires |a| == |b|
    ensures |r| == |a|
    ensures forall i :: 0 <= i < |a| ==> r[i] == (a[i] != b[i])
  {
    seq(|a|, i requires 0 <= i < |a| => a[i] != b[i])
  }

  function Falses(n: nat): (r: seq<bool>)
    ensures |r| == n && forall i :: 0 <= i < n ==> !r[i]
  {
    seq(n, i => false)
  }

  // ------------------------------------------------ the register

  /** One shift: crc << 1, with the polynomial folded in if a one falls out. */
  function Shift(r: Register): Register
  {
    if r[0] then Xor(r[1..] + [false], POLY) else r[1..] + [false]
  }

  function Shifts(r: Register, n: nat): Register
    decreases n
  {
    if n == 0 then r else Shifts(Shift(r), n - 1)
  }

  /** The register after one message bit, and after all of them. */
  function Feed(r: Register, b: bool): Register
  {
    Shift(r[0 := r[0] != b])
  }

  function FeedAll(r: Register, bits: seq<bool>): Register
    decreases |bits|
  {
    if bits == [] then r else FeedAll(Feed(r, bits[0]), bits[1..])
  }

  /** The bits of a byte string. */
  function MessageBits(data: seq<Byte>): (bits: seq<bool>)
    ensures |bits| == 8 * |data|
  {
    if data == [] then [] else MessageBits(data[..|data| - 1]) + ToBits(data[|data| - 1], 8)
  }

  function Crc16(data: seq<Byte>): Register
  {
    FeedAll(ZEROS, MessageBits(data))
  }

  lemma {:induction false} FeedConcat(r: Register, a: seq<bool>, b: seq<bool>)
    ensures FeedAll(r, a + b) == FeedAll(FeedAll(r, a), b)
    decreases |a|
  {
    if a == [] {
      assert a + b == b;
    } else {
      assert (a + b)[1..] == a[1..] + b;
      FeedConcat(Feed(r, a[0]), a[1..], b);
    }
  }

  // ------------------------------------------------ linearity

  lemma ShiftLinear(a: Register, b: Register)
    ensures Shift(Xor(a, b)) == Xor(Shift(a), Shift(b))
  {
    assert Xor(a, b)[1..] + [false] == Xor(a[1..] + [false], b[1..] + [false]);
  }

  lemma FeedLinear(r: Register, s: Register, x: bool, y: bool)
    ensures Feed(Xor(r, s), x != y) == Xor(Feed(r, x), Feed(s, y))
  {
    ShiftLinear(r[0 := r[0] != x], s[0 := s[0] != y]);
    assert Xor(r, s)[0 := Xor(r, s)[0] != (x != y)] == Xor(r[0 := r[0] != x], s[0 := s[0] != y]);
  }

  lemma {:induction false} FeedAllLinear(r: Register, s: Register, a: seq<bool>, b: seq<bool>)
    requires |a| == |b|
    ensures FeedAll(Xor(r, s), Xor(a, b)) == Xor(FeedAll(r, a), FeedAll(s, b))
    decreases |a|
  {
    if a != [] {
      FeedLinear(r, s, a[0], b[0]);
      assert Xor(a, b)[1..] == Xor(a[1..], b[1..]);
      FeedAllLinear(Feed(r, a[0]), Feed(s, b[0]), a[1..], b[1..]);
    }
  }

  /** Shifting at most sixteen message bits that were xored into the top of the register is
      feeding them one by one. */
  lemma {:induction false} ShiftsAreFeeds(r: Register, bits: seq<bool>)
    requires |bits| <= 16
    ensures Shifts(Xor(r, bits + Falses(16 - |bits|)), |bits|) == FeedAll(r, bits)
    decreases |bits|
  {
    if bits == [] {
      assert Xor(r, [] + Falses(16)) == r;
    } else {
      var rest := bits[1..];
      var high := [bits[0]] + Falses(15);
      var low := [false] + rest + Falses(16 - |bits|);
      assert Xor(r, bits + Falses(16 - |bits|)) == Xor(Xor(r, high), low);
      ShiftLinear(Xor(r, high), low);
      assert Xor(r, high) == r[0 := r[0] != bits[0]];
      assert Shift(low) == rest + Falses(16 - |rest|);
      ShiftsAreFeeds(Feed(r, bits[0]), rest);
    }
  }

  // ------------------------------------------------ polynomial division

  function At(q: seq<bool>, i: int): bool
  {
    0 <= i < |q| && q[i]
  }

  /** q times the generator. */
  function TimesG(q: seq<bool>): (r: seq<bool>)
    ensures |r| == |q| + 16
  {
    seq(|q| + 16, i requires 0 <= i => ((At(q, i) != At(q, i - 4)) != At(q, i - 11)) != At(q, i - 16))
  }

  /** message * x^16 == q * G + r */
  ghost predicate Divides(message: seq<bool>, q: seq<bool>, r: Register)
  {
    |q| == |message| && message + Falses(16) == Xor(TimesG(q), Falses(|q|) + r)
  }

  /** r is the remainder of the message times x^16 by the generator. */
  ghost predicate IsRemainder(message: seq<bool>, r: Register)
  {
    exists q :: Divides(message, q, r)
  }

  lemma DivideNothing()
    ensures Divides([], [], ZEROS)
  {
    var q: seq<bool> := [];
    forall i | 0 <= i < 16
      ensures !TimesG(q)[i] && !ZEROS[i]
    {
      assert !At(q, i) && !At(q, i - 4) && !At(q, i - 11) && !At(q, i - 16);
    }
    assert Falses(0) + ZEROS == ZEROS;
    assert q + Falses(16) == Xor(TimesG(q), Falses(0) + ZEROS);
  }

  /** One more message bit is one more step of long division. */
  lemma DivideNext(message: seq<bool>, q: seq<bool>, r: Register, b: bool)
    requires Divides(message, q, r)
    ensures Divides(message + [b], q + [r[0] != b], Feed(r, b))
  {
    var n, t := |q|, r[0] != b;
    var q', r' := q + [t], Feed(r, b);
    var left, right := message + [b] + Falses(16), Xor(TimesG(q'), Falses(n + 1) + r');
    var before := Xor(TimesG(q), Falses(n) + r);
    forall i | 0 <= i < n + 17
      ensures left[i] == right[i]
    {
      TermAdded(q, t, i);
      if i < n + 16 {
        assert (message + Falses(16))[i] == before[i];
      }
      if i > n {
        FedBit(r, b, i - n - 1);
      }
    }
  }

  lemma AtAppend(q: seq<bool>, t: bool, i: int)
    ensures At(q + [t], i) == (At(q, i) != (t && i == |q|))
  {
  }

  /** Appending a digit t to the quotient adds t * G at the low end. */
  lemma TermAdded(q: seq<bool>, t: bool, i: nat)
    requires i < |q| + 17
    ensures var n := |q|;
            TimesG(q + [t])[i] ==
            ((i < n + 16 && TimesG(q)[i]) != (t && (i == n || i == n + 4 || i == n + 11 || i == n + 16)))
  {
    AtAppend(q, t, i);
    AtAppend(q, t, i - 4);
    AtAppend(q, t, i - 11);
    AtAppend(q, t, i - 16);
  }

  lemma FedBit(r: Register, b: bool, j: nat)
    requires j < 16
    ensures Feed(r, b)[j] == ((j < 15 && r[j + 1]) != ((r[0] != b) && (j == 3 || j == 10 || j == 15)))
  {
  }

  lemma {:induction false} CrcDivides(message: seq<bool>) returns (q: seq<bool>)
    ensures Divides(message, q, FeedAll(ZEROS, message))
    decreases |message|
  {
    if message == [] {
      DivideNothing();
      q := [];
    } else {
      var front, b := message[..|message| - 1], message[|message| - 1];
      q := CrcDivides(front);
      DivideNext(front, q, FeedAll(ZEROS, front), b);
      q := q + [FeedAll(ZEROS, front)[0] != b];
      assert message == front + [b];
      FeedConcat(ZEROS, front, [b]);
      assert FeedAll(FeedAll(ZEROS, front), [b]) == Feed(FeedAll(ZEROS, front), b);
    }
  }

  lemma {:induction false} QuotientUnique(message: seq<bool>, q: seq<bool>, r: Register, p: seq<bool>, s: Register,
                                          i: nat)
    requires Divides(message, q, r) && Divides(message, p, s) && i < |q|
    ensures q[i] == p[i]
    decreases i
  {
    assert (message + Falses(16))[i] == TimesG(q)[i] == TimesG(p)[i];
    if i >= 4 { QuotientUnique(message, q, r, p, s, i - 4); }
    if i >= 11 { QuotientUnique(message, q, r, p, s, i - 11); }
    if i >= 16 { QuotientUnique(message, q, r, p, s, i - 16); }
  }

  /** The register holds the remainder, and nothing else is one. */
  lemma CrcIsRemainder(message: seq<bool>, r: Register)
    ensures IsRemainder(message, r) <==> r == FeedAll(ZEROS, message)
  {
    var q := CrcDivides(message);
    if IsRemainder(message, r) {
      var p :| Divides(message, p, r);
      var c := FeedAll(ZEROS, message);
      forall i | 0 <= i < |q|
        ensures q[i] == p[i]
      {
        QuotientUnique(message, q, c, p, r, i);
      }
      assert q == p;
      forall j | 0 <= j < 16
        ensures r[j] == c[j]
      {
        var i := |q| + j;
        assert (message + Falses(16))[i] == Xor(TimesG(q), Falses(|q|) + c)[i] == Xor(TimesG(p), Falses(|p|) + r)[i];
      }
    }
  }

  // ------------------------------------------------ burst errors

  lemma ShiftKernel(r: Register)
    requires Shift(r) == ZEROS
    ensures r == ZEROS
  {
    assert Shift(r)[15] == r[0];
    forall i | 0 < i < 16
      ensures !r[i]
    {
      assert (r[1..] + [false])[i - 1] == r[i];
    }
  }

  lemma {:induction false} ShiftsKernel(r: Register, n: nat)
    requires Shifts(r, n) == ZEROS
    ensures r == ZEROS
    decreases n
  {
    if n > 0 {
      ShiftsKernel(Shift(r), n - 1);
      ShiftKernel(r);
    }
  }

  lemma {:induction false} FeedFalses(r: Register, bits: seq<bool>)
    requires forall i :: 0 <= i < |bits| ==> !bits[i]
    ensures FeedAll(r, bits) == Shifts(r, |bits|)
    decreases |bits|
  {
    if bits != [] {
      assert r[0 := r[0] != false] == r;
      FeedFalses(Shift(r), bits[1..]);
    }
  }

  lemma {:induction false} ShiftsOfZero(n: nat)
    ensures Shifts(ZEROS, n) == ZEROS
  {
    if n > 0 {
      assert Shift(ZEROS) == ZEROS;
      ShiftsOfZero(n - 1);
    }
  }

  /** At most sixteen bits that leave the zero register zero are all zero. */
  lemma ShortNonzero(x: seq<bool>, i: nat)
    requires |x| <= 16 && FeedAll(ZEROS, x) == ZEROS && i < |x|
    ensures !x[i]
  {
    ShiftsAreFeeds(ZEROS, x);
    var padded := x + Falses(16 - |x|);
    ShiftsKernel(Xor(ZEROS, padded), |x|);
    assert Xor(ZEROS, padded)[i] == x[i];
  }

  /** Zeros before a burst and after it do not matter. */
  lemma BurstAlone(before: nat, x: seq<bool>, after: nat)
    requires FeedAll(ZEROS, Falses(before) + (x + Falses(after))) == ZEROS
    ensures FeedAll(ZEROS, x) == ZEROS
  {
    FeedConcat(ZEROS, Falses(before), x + Falses(after));
    FeedFalses(ZEROS, Falses(before));
    ShiftsOfZero(before);
    FeedConcat(ZEROS, x, Falses(after));
    FeedFalses(FeedAll(ZEROS, x), Falses(after));
    ShiftsKernel(FeedAll(ZEROS, x), after);
  }

  lemma WindowOf(d: seq<bool>, w: nat, e: nat)
    requires w <= e <= |d| && (forall i :: 0 <= i < |d| && d[i] ==> w <= i < e)
    ensures d == Falses(w) + (d[w..e] + Falses(|d| - e))
  {
  }

  /** A message whose ones all lie in one window of sixteen bits has a nonzero remainder. */
  lemma BurstNonzero(d: seq<bool>, w: nat, i: nat)
    requires w <= |d| && (forall i :: 0 <= i < |d| && d[i] ==> w <= i < w + 16)
    requires FeedAll(ZEROS, d) == ZEROS && i < |d|
    ensures !d[i]
  {
    var e := if w + 16 < |d| then w + 16 else |d|;
    if w <= i < e {
      WindowLeavesZero(d, w, e);
      InWindow(d, w, e, i);
    }
  }

  lemma InWindow(d: seq<bool>, w: nat, e: nat, i: nat)
    requires w <= i < e <= |d| && e <= w + 16 && FeedAll(ZEROS, d[w..e]) == ZEROS
    ensures !d[i]
  {
    ShortNonzero(d[w..e], i - w);
  }

  lemma WindowLeavesZero(d: seq<bool>, w: nat, e: nat)
    requires w <= e <= |d| && (forall i :: 0 <= i < |d| && d[i] ==> w <= i < e)
    requires FeedAll(ZEROS, d) == ZEROS
    ensures FeedAll(ZEROS, d[w..e]) == ZEROS
  {
    WindowOf(d, w, e);
    BurstAlone(w, d[w..e], |d| - e);
  }

  lemma {:induction false} MessageBitsInjective(a: seq<Byte>, b: seq<Byte>)
    requires |a| == |b| && MessageBits(a) == MessageBits(b)
    ensures a == b
    decreases |a|
  {
    if a != [] {
      var n := |a| - 1;
      assert MessageBits(a)[..8 * n] == MessageBits(a[..n]) && MessageBits(b)[..8 * n] == MessageBits(b[..n]);
      assert MessageBits(a)[8 * n..] == ToBits(a[n], 8) && MessageBits(b)[8 * n..] == ToBits(b[n], 8);
      MessageBitsInjective(a[..n], b[..n]);
      Pow2Byte();
      FromToBits(a[n], 8);
      FromToBits(b[n], 8);
      assert a == a[..n] + [a[n]] && b == b[..n] + [b[n]];
    }
  }

  /** Two different payloads of one length that differ only inside some window of sixteen bits
      never have the same CRC. */
  lemma BurstDetected(a: seq<Byte>, b: seq<Byte>, w: nat)
    requires |a| == |b| && a != b && w <= 8 * |a|
    requires forall i :: 0 <= i < 8 * |a| && MessageBits(a)[i] != MessageBits(b)[i] ==> w <= i < w + 16
    ensures Crc16(a) != Crc16(b)
  {
    var d := Xor(MessageBits(a), MessageBits(b));
    assert Xor(ZEROS, ZEROS) == ZEROS;
    FeedAllLinear(ZEROS, ZEROS, MessageBits(a), MessageBits(b));
    if Crc16(a) == Crc16(b) {
      assert Xor(Crc16(a), Crc16(b)) == ZEROS;
      forall i | 0 <= i < 8 * |a|
        ensures MessageBits(a)[i] == MessageBits(b)[i]
      {
        BurstNonzero(d, w, i);
      }
      assert MessageBits(a) == MessageBits(b);
      MessageBitsInjective(a, b);
    }
  }

  // ------------------------------------------------ the serial tool's loops, on numbers

  lemma {:induction false} XorDigits(x: nat, y: nat, n: nat)
    ensures ToBits(Bits.Xor(x, y), n) == Xor(ToBits(x, n), ToBits(y, n))
  {
    if n > 0 {
      XorDigits(x / 2, y / 2, n - 1);
      assert Bits.Xor(x, y) / 2 == Bits.Xor(x / 2, y / 2);
      assert Bits.Xor(x, y) % 2 == if x % 2 == y % 2 then 0 else 1;
    }
  }

  lemma {:induction false} LowDigits(x: nat, n: nat)
    ensures ToBits(x % Pow2(n), n) == ToBits(x, n)
  {
    if n > 0 {
      LowDigits(x / 2, n - 1);
      Halved(x, Pow2(n - 1));
    }
  }

  lemma Halved(x: nat, half: nat)
    requires half > 0
    ensures x % (2 * half) / 2 == x / 2 % half && x % (2 * half) % 2 == x % 2
  {
    var q, r := x / 2 / half, x / 2 % half;
    var b := x % 2;
    assert x / 2 == q * half + r;
    assert 2 * (q * half) == q * (2 * half);
    Modular.Remainder(x, q, 2 * half, 2 * r + b);
  }

  lemma {:induction false} HighDigits(x: nat, n: nat, k: nat)
    ensures ToBits(x * Pow2(k), n + k) == ToBits(x, n) + Falses(k)
  {
    if k == 0 {
      assert Falses(0) == [];
    } else {
      HighDigits(x, n, k - 1);
      Doubled(x, Pow2(k - 1));
      assert Falses(k - 1) + [false] == Falses(k);
    }
  }

  lemma Doubled(x: nat, p: nat)
    ensures x * (2 * p) / 2 == x * p && x * (2 * p) % 2 == 0
  {
    assert x * (2 * p) == 2 * (x * p);
  }

  /** One shift, as the tool computes it. */
  function ShiftWord(crc: nat): (r: nat)
    requires crc < 0x1_0000
    ensures r < 0x1_0000
  {
    if crc >= 0x8000 then Bits.Xor(crc * 2, 0x1021) % 0x1_0000 else crc * 2 % 0x1_0000
  }

  lemma Powers()
    ensures Pow2(8) == 256 && Pow2(15) == 0x8000 && Pow2(16) == 0x1_0000
  {
    assert Pow2(4) == 16 && Pow2(8) == 256 && Pow2(12) == 4096;
  }

  function Quad(x: nat): seq<bool> { [x / 8 % 2 == 1, x / 4 % 2 == 1, x / 2 % 2 == 1, x % 2 == 1] }

  lemma NibbleDigits(x: nat, n: nat)
    ensures ToBits(x, n + 4) == ToBits(x / 16, n) + Quad(x)
  {
    var a, b, c := x / 2, x / 4, x / 8;
    assert a / 2 == b && b / 2 == c && c / 2 == x / 16;
    assert ToBits(c, n + 1) == ToBits(x / 16, n) + [c % 2 == 1];
    assert ToBits(b, n + 2) == ToBits(c, n + 1) + [b % 2 == 1];
    assert ToBits(a, n + 3) == ToBits(b, n + 2) + [a % 2 == 1];
  }

  lemma FourNibbles(x: nat, n: nat, a: nat, b: nat, c: nat)
    requires n == 4 && a == x / 16 && b == a / 16 && c == b / 16
    ensures ToBits(x, n + 12) == Quad(c) + Quad(b) + Quad(a) + Quad(x)
  {
    NibbleDigits(x, n + 8);
    NibbleDigits(a, n + 4);
    NibbleDigits(b, n);
    NibbleDigits(c, n - 4);
    NoDigits(c / 16, n - 4);
  }

  lemma NoDigits(x: nat, n: nat)
    requires n == 0
    ensures ToBits(x, n) == []
  {
  }

  lemma PolyDigits(x: nat, n: nat)
    requires x == 0x1021 && n == 4
    ensures ToBits(x, n + 12) == POLY
  {
    var a, b, c: nat := 0x102, 0x10, 0x1;
    FourNibbles(x, n, a, b, c);
    PolyQuads(x, a, b, c);
  }

  lemma PolyQuads(x: nat, a: nat, b: nat, c: nat)
    requires x == 0x1021 && a == 0x102 && b == 0x10 && c == 0x1
    ensures Quad(c) + Quad(b) + Quad(a) + Quad(x) == POLY
  {
  }

  lemma DoubledDigits(crc: nat)
    requires crc < 0x1_0000
    ensures ToBits(crc * 2, 16) == ToBits(crc, 16)[1..] + [false] && ToBits(crc, 16)[0] == (crc >= 0x8000)
  {
    Powers();
    ShiftLeft(crc, 16);
    LowDigits(crc * 2, 16);
    LeadingBit(crc, 16);
  }

  /** It is a shift of the register. */
  lemma ShiftWordShifts(crc: nat)
    requires crc < 0x1_0000
    ensures ToBits(ShiftWord(crc), 16) == Shift(ToBits(crc, 16))
  {
    Powers();
    DoubledDigits(crc);
    LowDigits(crc * 2, 16);
    LowDigits(Bits.Xor(crc * 2, 0x1021), 16);
    XorDigits(crc * 2, 0x1021, 16);
    PolyDigits(0x1021, 4);
  }

  lemma LoadedByte(crc: nat, byte: Byte)
    requires crc < 0x1_0000
    ensures Bits.Xor(crc, byte * 256) < 0x1_0000
    ensures ToBits(Bits.Xor(crc, byte * 256), 16) == Xor(ToBits(crc, 16), ToBits(byte, 8) + Falses(8))
  {
    Powers();
    XorBound(crc, byte * 256, 16);
    XorDigits(crc, byte * 256, 16);
    HighDigits(byte, 8, 8);
  }

  /** One byte into the register: xored into its top half, then eight shifts. */
  method TakeByte(start: nat, byte: Byte) returns (crc: nat)
    requires start < 0x1_0000
    ensures crc < 0x1_0000 && ToBits(crc, 16) == FeedAll(ToBits(start, 16), ToBits(byte, 8))
  {
    LoadedByte(start, byte);
    crc := Bits.Xor(start, byte * 256);
    ghost var loaded: Register := ToBits(crc, 16);
    for k := 0 to 8
      invariant crc < 0x1_0000 && Shifts(loaded, 8) == Shifts(ToBits(crc, 16), 8 - k)
    {
      ShiftWordShifts(crc);
      crc := if crc >= 0x8000 then Bits.Xor(crc * 2, 0x1021) % 0x1_0000 else crc * 2 % 0x1_0000;
    }
    ShiftsAreFeeds(ToBits(start, 16), ToBits(byte, 8));
  }

  lemma ZeroDigits()
    ensures ToBits(0, 16) == ZEROS
  {
    FourNibbles(0, 4, 0, 0, 0);
  }

  /** crc16_xmodem of the serial tool: the remainder of the message times x^16 by the generator. */
  method Crc16Xmodem(data: seq<Byte>) returns (crc: nat)
    ensures crc < 0x1_0000 && ToBits(crc, 16) == Crc16(data)
    ensures IsRemainder(MessageBits(data), ToBits(crc, 16))
  {
    crc := 0;
    ZeroDigits();
    assert data[..0] == [];
    for i := 0 to |data|
      invariant crc < 0x1_0000 && ToBits(crc, 16) == Crc16(data[..i])
    {
      crc := TakeByte(crc, data[i]);
      assert data[..i + 1][..i] == data[..i];
      FeedConcat(ZEROS, MessageBits(data[..i]), ToBits(data[i], 8));
    }
    assert data[..|data|] == data;
    Crc16IsRemainder(data, ToBits(crc, 16));
  }

  /** The CRC is the remainder of the message times x^16 by the generator, and no other register is. */
  lemma Crc16IsRemainder(data: seq<Byte>, r: Register)
    ensures IsRemainder(MessageBits(data), r) <==> r == Crc16(data)
  {
    CrcIsRemainder(MessageBits(data), r);
  }
}
