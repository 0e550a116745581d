/** Serial receive on channels that do not run around: which serve, and when they stop. */
module SerialShots {
  import opened Bits
  import opened SerialRx
  import D = Dma

  /** Which channels serve, read off their registers: enabled, from the peripheral, USART1's page, a length given. */
  lemma EligibleIs(c: D.Channel)
    ensures Eligible(c) <==> Bit(c.ccr, 0) && !Bit(c.ccr, 4) && 0x4001_3800 <= c.cpar < 0x4001_3c00 && c.total > 0
  {
  }

  /** Armed once for total bytes of memory at base, k of them moved. */
  ghost predicate Shot(c: D.Channel, base: nat, total: nat, k: nat)
  {
    && Bit(c.ccr, 0) && !Bit(c.ccr, 5) && Bit(c.ccr, 7) && c.cmar == base && c.total == total
    && k < total && base + total <= WORD32 && c.cndtr == total - k
  }

  /** It has stopped: nothing left, the enable bit down and the others as they were. */
  ghost predicate Stopped(c: D.Channel, d: D.Channel)
  {
    && d == c.(cndtr := 0, ccr := d.ccr) && !Bit(d.ccr, 0)
    && forall j: nat :: j != 0 ==> Bit(d.ccr, j) == Bit(c.ccr, j)
  }

  /** Memory with bytes laid from an address on; what lies outside it is dropped. */
  function Row(ram: seq<Byte>, base: nat, bs: seq<Byte>): (r: seq<Byte>)
    ensures |r| == |ram|
  {
    seq(|ram|, i requires 0 <= i < |ram| =>
      if base <= i + D.SRAM_BASE < base + |bs| then bs[i + D.SRAM_BASE - base] else ram[i])
  }

  lemma RowNext(ram: seq<Byte>, base: nat, bs: seq<Byte>, b: Byte)
    ensures D.Put(Row(ram, base, bs), base + |bs|, b) == Row(ram, base, bs + [b])
  {
  }

  lemma ShotMoves(c: D.Channel, ram: seq<Byte>, b: Byte, base: nat, total: nat, k: nat)
    requires Shot(c, base, total, k)
    ensures var (d, m) := Move(c, ram, b);
            && m == D.Put(ram, base + k, b)
            && (if k + 1 < total then Shot(d, base, total, k + 1) && d == c.(cndtr := d.cndtr) else Stopped(c, d))
  {
    Destination(c, k);
    forall j: nat
      ensures Bit(WithBit(c.ccr, D.EN, false), j) == if j == 0 then false else Bit(c.ccr, j)
    {
      WithBitBits(c.ccr, D.EN, false, j);
    }
  }

  /** What is left of the queue and what has come to memory, when it takes as many bytes as it may or there are. */
  ghost predicate Taken(c: D.Channel, ram: seq<Byte>, was: seq<Byte>, q: seq<Byte>, base: nat, total: nat,
                        r: (D.Channel, seq<Byte>, seq<Byte>))
  {
    var n := if |q| < total - |was| then |q| else total - |was|;
    && 0 <= n && r.1 == Row(ram, base, was + q[..n]) && r.2 == q[n..]
    && (if |was| + n == total then Stopped(c.(cndtr := r.0.cndtr), r.0)
        else Shot(r.0, base, total, |was| + n) && r.0 == c.(cndtr := r.0.cndtr))
  }

  lemma {:induction false} ShotDrains(c: D.Channel, ram: seq<Byte>, was: seq<Byte>, q: seq<Byte>, base: nat, total: nat)
    requires Shot(c, base, total, |was|)
    ensures Taken(c, ram, was, q, base, total, Drain(c, Row(ram, base, was), q))
    decreases |q|
  {
    if q == [] {
      assert was + q == was;
    } else {
      var m := Row(ram, base, was);
      ShotMoves(c, m, q[0], base, total, |was|);
      RowNext(ram, base, was, q[0]);
      if |was| + 1 < total {
        ShotDrains(Move(c, m, q[0]).0, ram, was + [q[0]], q[1..], base, total);
        TakenOnward(c, Move(c, m, q[0]).0, ram, was, q, base, total, Drain(c, m, q));
      } else {
        assert was + q[..1] == was + [q[0]];
      }
    }
  }

  lemma TakenOnward(c: D.Channel, d: D.Channel, ram: seq<Byte>, was: seq<Byte>, q: seq<Byte>, base: nat, total: nat,
                    r: (D.Channel, seq<Byte>, seq<Byte>))
    requires q != [] && |was| + 1 < total && d == c.(cndtr := d.cndtr)
    requires Taken(d, ram, was + [q[0]], q[1..], base, total, r)
    ensures Taken(c, ram, was, q, base, total, r)
  {
    var n := if |q| < total - |was| then |q| else total - |was|;
    assert was + [q[0]] + q[1..][..n - 1] == was + q[..n];
    assert q[1..][n - 1..] == q[n..];
  }

  /** A channel armed once, alone: it takes the oldest bytes, as many as its length allows, into memory in order;
      stops when the last of them has come; and leaves the rest in the queue, where no later read finds it. */
  lemma OneShot(ch: seq<D.Channel>, ram: seq<Byte>, q: seq<Byte>, i: nat, base: nat, total: nat)
    requires i < |ch| && Shot(ch[i], base, total, 0) && Eligible(ch[i])
    requires forall j :: 0 <= j < |ch| && j != i ==> !Eligible(ch[j])
    ensures var (h, m, p) := Serve(ch, ram, q, |ch|);
            var n := if |q| < total then |q| else total;
            && m == Row(ram, base, q[..n]) && p == q[n..]
            && h == ch[i := h[i]] && (Bit(h[i].ccr, 0) <==> n < total) && h[i].cndtr == total - n
            && (n == total ==> forall more: seq<Byte> :: Serve(h, m, p + more, |ch|) == (h, m, p + more))
  {
    assert Row(ram, base, []) == ram;
    ServeOne(ch, ram, q, i, |ch|);
    ShotDrains(ch[i], ram, [], q, base, total);
    var (h, m, p) := Serve(ch, ram, q, |ch|);
    var n := if |q| < total then |q| else total;
    assert [] + q[..n] == q[..n];
    if n == total {
      forall more: seq<Byte>
        ensures Serve(h, m, p + more, |ch|) == (h, m, p + more)
      {
        ServeNobody(h, m, p + more, |ch|);
      }
    }
  }

  /** A circular channel takes everything, so one behind it gets nothing. */
  lemma {:induction false} FirstTakesAll(ch: seq<D.Channel>, ram: seq<Byte>, q: seq<Byte>, i: nat, base: nat,
                                         total: nat, n: nat)
    requires i < n <= |ch| && Circular(ch[i], base, total, 0)
    requires forall j :: 0 <= j < i ==> !Eligible(ch[j])
    ensures var (h, m, p) := Serve(ch, ram, q, n);
            p == [] && m == Laid(ram, base, total, q) && forall j :: 0 <= j < |ch| && j != i ==> h[j] == ch[j]
    decreases n
  {
    if n == i + 1 {
      ServeNobody(ch, ram, q, i);
      DrainCircular(ch[i], ram, [], q, base, total);
      assert Laid(ram, base, total, []) == ram && [] + q == q;
    } else {
      FirstTakesAll(ch, ram, q, i, base, total, n - 1);
    }
  }

  /** With an address that does not advance every byte lands in one place, and nowhere else. */
  lemma FixedAddress(c: D.Channel, ram: seq<Byte>, b: Byte)
    requires !Bit(c.ccr, 7) && c.cmar < WORD32
    ensures Move(c, ram, b).1 == D.Put(ram, c.cmar, b)
  {
  }
}
