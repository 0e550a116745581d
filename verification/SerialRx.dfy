/** Serial receive: the ring feeds a DMA channel whose count the guest reads. */
module SerialRx {
  import opened Bits
  import opened Modular
  import opened Uart
  import D = Dma

  const USART1_BASE: nat := 0x4001_3800
  const CIRC: nat := 5

  /** Enabled, peripheral to memory, pointed at USART1, and given a length. */
  predicate Eligible(c: D.Channel)
  {
    Bit(c.ccr, D.EN) && !Bit(c.ccr, D.DIR) && c.cpar / 0x400 * 0x400 == USART1_BASE && c.total != 0
  }

  /** One byte moved: to the address the count implies, and the count one lower; at zero a circular
      channel reloads, another one stops. */
  function Move(c: D.Channel, ram: seq<Byte>, b: Byte): (r: (D.Channel, seq<Byte>))
    ensures |r.1| == |ram|
  {
    var done := (c.total + WORD32 - c.cndtr % WORD32) % WORD32;
    var dest := (c.cmar + (if Bit(c.ccr, D.MINC) then done else 0)) % WORD32;
    var n := if c.cndtr > 0 then c.cndtr - 1 else 0;
    (if n != 0 then c.(cndtr := n)
     else if Bit(c.ccr, CIRC) then c.(cndtr := c.total)
     else c.(cndtr := 0, ccr := WithBit(c.ccr, D.EN, false)), D.Put(ram, dest, b))
  }

  /** A channel moves queued bytes until none is left or it stops. */
  function Drain(c: D.Channel, ram: seq<Byte>, q: seq<Byte>): (r: (D.Channel, seq<Byte>, seq<Byte>))
    ensures |r.1| == |ram|
    decreases |q|
  {
    if q == [] then (c, ram, q)
    else
      var (d, m) := Move(c, ram, q[0]);
      if d.cndtr == 0 then (d, m, q[1..]) else Drain(d, m, q[1..])
  }

  /** The channels, the memory and the queue once the first n channels have been served. */
  function Serve(ch: seq<D.Channel>, ram: seq<Byte>, q: seq<Byte>, n: nat): (r: (seq<D.Channel>, seq<Byte>, seq<Byte>))
    requires n <= |ch|
    ensures |r.0| == |ch| && |r.1| == |ram|
    ensures forall j :: n <= j < |ch| ==> r.0[j] == ch[j]
  {
    if n == 0 then (ch, ram, q)
    else
      var (h, m, p) := Serve(ch, ram, q, n - 1);
      if !Eligible(h[n - 1]) then (h, m, p)
      else
        var (c, m', p') := Drain(h[n - 1], m, p);
        (h[n - 1 := c], m', p')
  }

  predicate AnyEligible(ch: seq<D.Channel>, n: nat)
    requires n <= |ch|
  {
    exists i :: 0 <= i < n && Eligible(ch[i])
  }

  /** The flags once the first n channels have been served: each eligible one raises its global flag. */
  function Flagged(isr: nat, ch: seq<D.Channel>, n: nat): nat
    requires n <= |ch|
  {
    if n == 0 then isr
    else if Eligible(ch[n - 1]) then WithBit(Flagged(isr, ch, n - 1), (n - 1) * 4, true)
    else Flagged(isr, ch, n - 1)
  }

  class RxDma {
    const usart: Usart
    const sram: array<Byte>
    const ch: array<D.Channel>
    var isr: nat
    var irqLow: bool
    var irqHigh: bool

    ghost predicate Valid()
      reads this, usart
    {
      usart.Valid() && sram != usart.fifo && sram.Length == D.SRAM_SIZE && ch.Length == D.CHANNELS
    }

    /** What the channels and the flags ask for. */
    ghost function LinesNow(): (bool, bool)
      requires ch.Length == D.CHANNELS
      reads this, ch
    {
      (D.Requesting(isr, ch[..], 0, 3), D.Requesting(isr, ch[..], 3, D.CHANNELS))
    }

    constructor (usart: Usart)
      requires usart.Valid()
      ensures Valid() && this.usart == usart && fresh(sram) && fresh(ch)
      ensures forall i :: 0 <= i < D.CHANNELS ==> ch[i] == D.Channel(0, 0, 0, 0, 0)
    {
      this.usart := usart;
      sram := new Byte[D.SRAM_SIZE](i => 0);
      ch := new D.Channel[D.CHANNELS](i => D.Channel(0, 0, 0, 0, 0));
      isr, irqLow, irqHigh := 0, false, false;
    }

    method Write(a: nat, b: Byte)
      requires Valid()
      modifies sram
      ensures sram[..] == D.Put(old(sram[..]), a, b)
    {
      if D.SRAM_BASE <= a < D.SRAM_BASE + sram.Length {
        sram[a - D.SRAM_BASE] := b;
      }
    }

    /** One byte out of the ring and into memory. */
    method MoveByte(i: nat, b: Byte)
      requires Valid() && i < ch.Length
      modifies sram, ch
      ensures (ch[i], sram[..]) == Move(old(ch[i]), old(sram[..]), b)
      ensures ch[..] == old(ch[..])[i := ch[i]]
    {
      var c := ch[i];
      var done := (c.total + WORD32 - c.cndtr % WORD32) % WORD32;
      Write((c.cmar + (if Bit(c.ccr, D.MINC) then done else 0)) % WORD32, b);
      if c.cndtr > 0 {
        c := c.(cndtr := c.cndtr - 1);
      }
      if c.cndtr == 0 {
        if Bit(c.ccr, CIRC) {
          c := c.(cndtr := c.total);
        } else {
          c := c.(ccr := WithBit(c.ccr, D.EN, false));
        }
      }
      ch[i] := c;
    }

    method DrainChannel(i: nat)
      requires Valid() && i < ch.Length && Eligible(ch[i])
      modifies usart, sram, ch
      ensures Valid()
      ensures (ch[i], sram[..], usart.Queue()) == Drain(old(ch[i]), old(sram[..]), old(usart.Queue()))
      ensures ch[..] == old(ch[..])[i := ch[i]]
    {
      var empty := usart.IsEmpty();
      while !empty
        invariant Valid() && empty == (usart.Queue() == [])
        invariant Drain(ch[i], sram[..], usart.Queue()) == Drain(old(ch[i]), old(sram[..]), old(usart.Queue()))
        invariant ch[..] == old(ch[..])[i := ch[i]]
        decreases |usart.Queue()|
      {
        var b := usart.Pop();
        MoveByte(i, b.value);
        if ch[i].cndtr == 0 {
          break;
        }
        empty := usart.IsEmpty();
      }
    }

    /** py32_dma_service_usart_rx */
    method Service()
      requires Valid()
      modifies this, usart, sram, ch
      ensures Valid()
      ensures (ch[..], sram[..], usart.Queue()) == Serve(old(ch[..]), old(sram[..]), old(usart.Queue()), D.CHANNELS)
      ensures isr == Flagged(old(isr), old(ch[..]), D.CHANNELS)
      ensures (irqLow, irqHigh) == if AnyEligible(old(ch[..]), D.CHANNELS) then LinesNow() else old((irqLow, irqHigh))
    {
      for i := 0 to D.CHANNELS
        invariant Valid()
        invariant (ch[..], sram[..], usart.Queue()) == Serve(old(ch[..]), old(sram[..]), old(usart.Queue()), i)
        invariant isr == Flagged(old(isr), old(ch[..]), i)
        invariant (irqLow, irqHigh) == if AnyEligible(old(ch[..]), i) then LinesNow() else old((irqLow, irqHigh))
      {
        if !Eligible(ch[i]) {
          continue;
        }
        DrainChannel(i);
        isr := WithBit(isr, i * 4, true);
        irqLow, irqHigh := D.IrqLines(ch, isr);
      }
    }

    /** Reading a channel's count first delivers what is waiting. */
    method ReadCount(i: nat) returns (n: nat)
      requires Valid() && i < D.CHANNELS
      modifies this, usart, sram, ch
      ensures Valid() && n == ch[i].cndtr && isr == Flagged(old(isr), old(ch[..]), D.CHANNELS)
      ensures (ch[..], sram[..], usart.Queue()) == Serve(old(ch[..]), old(sram[..]), old(usart.Queue()), D.CHANNELS)
    {
      Service();
      n := ch[i].cndtr;
    }
  }

  // ------------------------------------------------ serving interrupts nobody

  lemma {:induction false} FlaggedBits(isr: nat, ch: seq<D.Channel>, n: nat, k: nat)
    requires n <= |ch|
    ensures Bit(Flagged(isr, ch, n), k) <==> Bit(isr, k) || exists i :: 0 <= i < n && Eligible(ch[i]) && k == i * 4
  {
    if n > 0 {
      FlaggedBits(isr, ch, n - 1, k);
      WithBitBits(Flagged(isr, ch, n - 1), (n - 1) * 4, true, k);
    }
  }

  lemma {:induction false} DrainKeepsTcie(c: D.Channel, ram: seq<Byte>, q: seq<Byte>)
    ensures Bit(Drain(c, ram, q).0.ccr, D.TCIE) == Bit(c.ccr, D.TCIE)
    decreases |q|
  {
    if q != [] {
      WithBitBits(c.ccr, D.EN, false, D.TCIE);
      DrainKeepsTcie(Move(c, ram, q[0]).0, Move(c, ram, q[0]).1, q[1..]);
    }
  }

  lemma {:induction false} ServeKeepsTcie(ch: seq<D.Channel>, ram: seq<Byte>, q: seq<Byte>, n: nat, i: nat)
    requires n <= |ch| && i < |ch|
    ensures Bit(Serve(ch, ram, q, n).0[i].ccr, D.TCIE) == Bit(ch[i].ccr, D.TCIE)
  {
    if n > 0 {
      ServeKeepsTcie(ch, ram, q, n - 1, i);
      var (h, m, p) := Serve(ch, ram, q, n - 1);
      DrainKeepsTcie(h[n - 1], m, p);
    }
  }

  /** A full buffer raises no interrupt: what the lines should be is what it was before. */
  lemma ServeAsksNothing(isr: nat, ch: seq<D.Channel>, ram: seq<Byte>, q: seq<Byte>, from: nat, to: nat)
    requires to <= |ch|
    ensures D.Requesting(Flagged(isr, ch, |ch|), Serve(ch, ram, q, |ch|).0, from, to) <==>
            D.Requesting(isr, ch, from, to)
  {
    forall i: nat | i < |ch|
      ensures Bit(Serve(ch, ram, q, |ch|).0[i].ccr, D.TCIE) == Bit(ch[i].ccr, D.TCIE)
      ensures Bit(Flagged(isr, ch, |ch|), i * 4 + 1) == Bit(isr, i * 4 + 1)
    {
      ServeKeepsTcie(ch, ram, q, |ch|, i);
      FlaggedBits(isr, ch, |ch|, i * 4 + 1);
    }
  }

  // ------------------------------------------------ a circular channel

  /** Armed for circular receive into total bytes of memory at base, k bytes moved since. */
  ghost predicate Circular(c: D.Channel, base: nat, total: nat, k: nat)
  {
    && Eligible(c) && Bit(c.ccr, CIRC) && Bit(c.ccr, D.MINC) && c.cmar == base && c.total == total
    && 0 < total && base + total <= WORD32 && c.cndtr == total - k % total
  }

  /** The moved bytes laid around the buffer. */
  function Laid(ram: seq<Byte>, base: nat, total: nat, moved: seq<Byte>): (r: seq<Byte>)
    requires 0 < total
    ensures |r| == |ram|
  {
    if moved == [] then ram
    else D.Put(Laid(ram, base, total, moved[..|moved| - 1]), base + (|moved| - 1) % total, moved[|moved| - 1])
  }

  lemma Destination(c: D.Channel, r: nat)
    requires Bit(c.ccr, D.MINC) && c.cndtr == c.total - r && r < c.total && c.cmar + c.total <= WORD32
    ensures (c.total + WORD32 - c.cndtr % WORD32) % WORD32 == r && (c.cmar + r) % WORD32 == c.cmar + r
  {
    if c.cndtr < WORD32 {
      assert c.cndtr % WORD32 == c.cndtr;
    }
  }

  /** Byte k lands at base + k mod total, and the count goes on telling k mod total. */
  lemma MoveCircular(c: D.Channel, ram: seq<Byte>, b: Byte, base: nat, total: nat, k: nat)
    requires Circular(c, base, total, k)
    ensures var (d, m) := Move(c, ram, b);
            Circular(d, base, total, k + 1) && m == D.Put(ram, base + k % total, b) && 1 <= d.cndtr <= total
  {
    Successor(k, total);
    var r := k % total;
    Destination(c, r);
  }

  lemma {:induction false} DrainCircular(c: D.Channel, ram0: seq<Byte>, moved: seq<Byte>, q: seq<Byte>, base: nat,
                                         total: nat)
    requires Circular(c, base, total, |moved|)
    ensures var (d, m, p) := Drain(c, Laid(ram0, base, total, moved), q);
            Circular(d, base, total, |moved + q|) && m == Laid(ram0, base, total, moved + q) && p == []
    decreases |q|
  {
    if q == [] {
      assert moved + q == moved;
    } else {
      var ram := Laid(ram0, base, total, moved);
      MoveCircular(c, ram, q[0], base, total, |moved|);
      assert (moved + [q[0]])[..|moved|] == moved;
      assert moved + [q[0]] + q[1..] == moved + q;
      DrainCircular(Move(c, ram, q[0]).0, ram0, moved + [q[0]], q[1..], base, total);
    }
  }

  lemma {:induction false} ServeNobody(ch: seq<D.Channel>, ram: seq<Byte>, q: seq<Byte>, n: nat)
    requires n <= |ch| && forall j :: 0 <= j < n ==> !Eligible(ch[j])
    ensures Serve(ch, ram, q, n) == (ch, ram, q)
  {
    if n > 0 {
      ServeNobody(ch, ram, q, n - 1);
    }
  }

  /** With one channel eligible, serving is draining it. */
  lemma {:induction false} ServeOne(ch: seq<D.Channel>, ram: seq<Byte>, q: seq<Byte>, i: nat, n: nat)
    requires i < n <= |ch| && Eligible(ch[i])
    requires forall j :: 0 <= j < |ch| && j != i ==> !Eligible(ch[j])
    ensures var (c, m, p) := Drain(ch[i], ram, q); Serve(ch, ram, q, n) == (ch[i := c], m, p)
    decreases n
  {
    if n == i + 1 {
      ServeNobody(ch, ram, q, i);
    } else {
      ServeOne(ch, ram, q, i, n - 1);
    }
  }

  // ------------------------------------------------ any interleaving

  datatype Rx = Rx(queue: seq<Byte>, ch: seq<D.Channel>, ram: seq<Byte>)

  /** The host sends; the guest reads a count; the guest reads the data register. */
  datatype Event = Host(bytes: seq<Byte>) | CountRead | DataRead

  function Accepted(s: Rx, bytes: seq<Byte>): seq<Byte>
    requires |s.queue| < SLOTS
  {
    var room := SLOTS - 1 - |s.queue|;
    bytes[..if |bytes| <= room then |bytes| else room]
  }

  function Step(s: Rx, e: Event): (r: Rx)
    requires |s.queue| < SLOTS
    ensures |r.queue| < SLOTS && |r.ch| == |s.ch| && |r.ram| == |s.ram|
  {
    match e
    case Host(bytes) => s.(queue := s.queue + Accepted(s, bytes))
    case CountRead =>
      var (h, m, p) := Serve(s.ch, s.ram, s.queue, |s.ch|);
      ServeShortens(s.ch, s.ram, s.queue, |s.ch|);
      Rx(p, h, m)
    case DataRead => if s.queue == [] then s else s.(queue := s.queue[1..])
  }

  lemma {:induction false} DrainShortens(c: D.Channel, ram: seq<Byte>, q: seq<Byte>)
    ensures |Drain(c, ram, q).2| <= |q|
    decreases |q|
  {
    if q != [] {
      DrainShortens(Move(c, ram, q[0]).0, Move(c, ram, q[0]).1, q[1..]);
    }
  }

  lemma {:induction false} ServeShortens(ch: seq<D.Channel>, ram: seq<Byte>, q: seq<Byte>, n: nat)
    requires n <= |ch|
    ensures |Serve(ch, ram, q, n).2| <= |q|
  {
    if n > 0 {
      ServeShortens(ch, ram, q, n - 1);
      var (h, m, p) := Serve(ch, ram, q, n - 1);
      DrainShortens(h[n - 1], m, p);
    }
  }

  /** What the ring accepted, what reached memory, and everything that left the ring, in order. */
  datatype History = History(s: Rx, received: seq<Byte>, moved: seq<Byte>, taken: seq<Byte>)

  function Extend(h: History, e: Event): (r: History)
    requires |h.s.queue| < SLOTS
    ensures r.s == Step(h.s, e)
  {
    var t := Step(h.s, e);
    match e
    case Host(bytes) => h.(s := t, received := h.received + Accepted(h.s, bytes))
    case CountRead =>
      ServeShortens(h.s.ch, h.s.ram, h.s.queue, |h.s.ch|);
      var gone := h.s.queue[..|h.s.queue| - |t.queue|];
      h.(s := t, moved := h.moved + gone, taken := h.taken + gone)
    case DataRead => if h.s.queue == [] then h else h.(s := t, taken := h.taken + [h.s.queue[0]])
  }

  function Run(s: Rx, es: seq<Event>): (h: History)
    requires |s.queue| < SLOTS
    ensures |h.s.queue| < SLOTS && |h.s.ch| == |s.ch| && |h.s.ram| == |s.ram|
  {
    if es == [] then History(s, s.queue, [], []) else Extend(Run(s, es[..|es| - 1]), es[|es| - 1])
  }

  /** One circular channel, armed and untouched, and no other eligible one. */
  ghost predicate ArmedAt(s: Rx, i: nat, base: nat, total: nat, k: nat)
  {
    && i < |s.ch| && Circular(s.ch[i], base, total, k)
    && forall j :: 0 <= j < |s.ch| && j != i ==> !Eligible(s.ch[j])
  }

  ghost predicate Accounted(ram: seq<Byte>, h: History, i: nat, base: nat, total: nat)
  {
    && |h.s.queue| < SLOTS && h.received == h.taken + h.s.queue
    && ArmedAt(h.s, i, base, total, |h.moved|)
    && h.s.ram == Laid(ram, base, total, h.moved)
  }

  lemma HostAccounted(ram: seq<Byte>, h: History, bytes: seq<Byte>, i: nat, base: nat, total: nat)
    requires Accounted(ram, h, i, base, total)
    ensures Accounted(ram, Extend(h, Host(bytes)), i, base, total)
  {
    assert h.taken + h.s.queue + Accepted(h.s, bytes) == h.taken + (h.s.queue + Accepted(h.s, bytes));
  }

  lemma CountReadAccounted(ram: seq<Byte>, h: History, i: nat, base: nat, total: nat)
    requires Accounted(ram, h, i, base, total)
    ensures Accounted(ram, Extend(h, CountRead), i, base, total)
  {
    ServeOne(h.s.ch, h.s.ram, h.s.queue, i, |h.s.ch|);
    DrainCircular(h.s.ch[i], ram, h.moved, h.s.queue, base, total);
    assert h.s.queue[..|h.s.queue|] == h.s.queue;
    assert h.taken + h.s.queue + [] == h.taken + h.s.queue;
  }

  lemma DataReadAccounted(ram: seq<Byte>, h: History, i: nat, base: nat, total: nat)
    requires Accounted(ram, h, i, base, total)
    ensures Accounted(ram, Extend(h, DataRead), i, base, total)
  {
    if h.s.queue != [] {
      assert h.taken + [h.s.queue[0]] + h.s.queue[1..] == h.taken + h.s.queue;
    }
  }

  lemma {:induction false} RunAccounted(s: Rx, es: seq<Event>, i: nat, base: nat, total: nat)
    requires |s.queue| < SLOTS && ArmedAt(s, i, base, total, 0)
    ensures Accounted(s.ram, Run(s, es), i, base, total)
    decreases |es|
  {
    if es == [] {
      assert [] + s.queue == s.queue;
    } else {
      var h := Run(s, es[..|es| - 1]);
      RunAccounted(s, es[..|es| - 1], i, base, total);
      match es[|es| - 1]
      case Host(bytes) => HostAccounted(s.ram, h, bytes, i, base, total);
      case CountRead => CountReadAccounted(s.ram, h, i, base, total);
      case DataRead => DataReadAccounted(s.ram, h, i, base, total);
    }
  }

  lemma {:induction false} OnlyMoved(s: Rx, es: seq<Event>)
    requires |s.queue| < SLOTS && DataRead !in es
    ensures Run(s, es).moved == Run(s, es).taken
    decreases |es|
  {
    if es != [] {
      assert es[|es| - 1] in es;
      OnlyMoved(s, es[..|es| - 1]);
    }
  }

  /** Lossless and in order: what was received is what was taken and what is queued; the k-th byte
      moved since arming is at base + k mod total; the count is total - (k mod total). */
  lemma Lossless(s: Rx, es: seq<Event>, i: nat, base: nat, total: nat)
    requires |s.queue| < SLOTS && ArmedAt(s, i, base, total, 0)
    ensures var h := Run(s, es);
            && h.received == h.taken + h.s.queue && (DataRead !in es ==> h.moved == h.taken)
            && h.s.ram == Laid(s.ram, base, total, h.moved)
            && h.s.ch[i].cndtr == total - |h.moved| % total && 1 <= h.s.ch[i].cndtr <= total
  {
    RunAccounted(s, es, i, base, total);
    assert |Run(s, es).moved| % total < total;
    if DataRead !in es {
      OnlyMoved(s, es);
    }
  }

  /** The last total bytes moved are all in the buffer, each in its place. */
  lemma {:induction false} LatestInBuffer(ram: seq<Byte>, base: nat, total: nat, moved: seq<Byte>, k: nat)
    requires 0 < total && D.SRAM_BASE <= base && base + total <= D.SRAM_BASE + |ram|
    requires k < |moved| <= k + total
    ensures Laid(ram, base, total, moved)[base - D.SRAM_BASE + k % total] == moved[k]
    decreases |moved|
  {
    var n := |moved| - 1;
    assert n % total < total && k % total < total;
    if k < n {
      LatestInBuffer(ram, base, total, moved[..n], k);
      Distinct(k, n, total);
    }
  }
}
