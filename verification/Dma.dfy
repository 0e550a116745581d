/** The SPI controller's DMA request gate and the duplex DMA engine, with the flash on the bus. */
module Dma {
  import opened Bits
  import N = Nor
  import W = WriteBack

  const SRAM_BASE: nat := 0x2000_0000
  const SRAM_SIZE: nat := 0x4000
  const SPI2_BASE: nat := 0x4000_3800
  const CHANNELS: nat := 7

  // Bit numbers in CCR, CR1, CR2, and SR.
  const EN: nat := 0
  const TCIE: nat := 1
  const DIR: nat := 4
  const MINC: nat := 7
  const SPE: nat := 6
  const TXDMAEN: nat := 1
  const RXNE: nat := 0
  const TXE: nat := 1
  const BSY: nat := 7

  datatype Channel = Channel(ccr: nat, cndtr: nat, cpar: nat, cmar: nat, total: nat)

  datatype Board = Board(store: W.Store, cr1: nat, cr2: nat, sr: nat, rx: Byte,
                         isr: nat, ch: seq<Channel>, irqLow: bool, irqHigh: bool, ram: seq<Byte>)
  {
    ghost predicate Valid()
    {
      W.Sound(store) && |ch| == CHANNELS && |ram| == SRAM_SIZE
    }
  }

  // ------------------------------------------------ guest memory

  /** A byte of the CPU's address space; what is not SRAM reads as zero and ignores writes. */
  function Load(ram: seq<Byte>, a: nat): Byte
  {
    if SRAM_BASE <= a < SRAM_BASE + |ram| then ram[a - SRAM_BASE] else 0
  }

  function Put(ram: seq<Byte>, a: nat, b: Byte): (r: seq<Byte>)
    ensures |r| == |ram|
  {
    if SRAM_BASE <= a < SRAM_BASE + |ram| then ram[a - SRAM_BASE := b] else ram
  }

  // ------------------------------------------------ one transfer

  /** A channel as the engine uses it: where in memory, and whether the address advances. */
  datatype Port = Off | On(addr: nat, inc: bool)
  {
    function At(k: nat): nat
      requires On?
    {
      if inc then (addr + k) % WORD32 else addr
    }
  }

  /** The flash and the memory after k bytes of a duplex transfer. */
  function Clocked(c: N.Chip, ram: seq<Byte>, tx: Port, rx: Port, k: nat): (r: (N.Chip, seq<Byte>))
    requires c.Valid()
    ensures r.0.Valid() && r.0.selected == c.selected && |r.1| == |ram|
  {
    if k == 0 then (c, ram)
    else
      var (d, m) := Clocked(c, ram, tx, rx, k - 1);
      var out := if tx.Off? then 0xff else Load(m, tx.At(k - 1));
      N.XferKeepsValid(d, out);
      var (d', reply) := N.Xfer(d, out);
      (d', if rx.Off? then m else Put(m, rx.At(k - 1), reply))
  }

  lemma ClockedNext(c: N.Chip, ram: seq<Byte>, tx: Port, rx: Port, k: nat, d: N.Chip, m: seq<Byte>)
    requires c.Valid() && (d, m) == Clocked(c, ram, tx, rx, k)
    ensures var (d', reply) := N.Xfer(d, if tx.Off? then 0xff else Load(m, tx.At(k)));
            Clocked(c, ram, tx, rx, k + 1) == (d', if rx.Off? then m else Put(m, rx.At(k), reply))
  {
  }

  /** An address that advances wraps around at the width of the register. */
  lemma NextAddress(p: Port, k: nat)
    requires p.On? && p.inc
    ensures (p.At(k) + 1) % WORD32 == p.At(k + 1)
  {
    var q, r := (p.addr + k) / WORD32, (p.addr + k) % WORD32;
    assert p.addr + k == q * 0x1_0000_0000 + r;
  }

  // ------------------------------------------------ the engine

  predicate IsArmed(c: Channel, dir: bool)
  {
    Bit(c.ccr, EN) && c.cndtr != 0 && c.cpar / 0x400 * 0x400 == SPI2_BASE && Bit(c.ccr, DIR) == dir
  }

  /** The last of the first n channels armed for this controller in one direction, or -1. */
  function LastArmed(ch: seq<Channel>, dir: bool, n: nat): (i: int)
    requires n <= |ch|
    ensures -1 <= i < n
    ensures i >= 0 ==> IsArmed(ch[i], dir)
    ensures forall j :: i < j < n ==> !IsArmed(ch[j], dir)
  {
    if n == 0 then -1 else if IsArmed(ch[n - 1], dir) then n - 1 else LastArmed(ch, dir, n - 1)
  }

  function PortOf(ch: seq<Channel>, i: int): Port
    requires -1 <= i < |ch|
  {
    if i < 0 then Off else On(ch[i].cmar, Bit(ch[i].ccr, MINC))
  }

  /** Any channel in [from, to) with its transfer-complete flag up and its interrupt enabled. */
  predicate Requesting(isr: nat, ch: seq<Channel>, from: nat, to: nat)
    requires to <= |ch|
  {
    exists i :: from <= i < to && Bit(ch[i].ccr, TCIE) && Bit(isr, i * 4 + 1)
  }

  /** The two lines: the channels 0 to 2, and the others. */
  method IrqLines(ch: array<Channel>, isr: nat) returns (low: bool, high: bool)
    requires ch.Length == CHANNELS
    ensures low == Requesting(isr, ch[..], 0, 3) && high == Requesting(isr, ch[..], 3, CHANNELS)
  {
    low, high := false, false;
    for i := 0 to CHANNELS
      invariant low == Requesting(isr, ch[..], 0, if i < 3 then i else 3)
      invariant high == Requesting(isr, ch[..], 3, i)
    {
      if Bit(ch[i].ccr, TCIE) && Bit(isr, i * 4 + 1) {
        if i < 3 {
          low := true;
        } else {
          high := true;
        }
      }
    }
  }

  function Drained(ch: seq<Channel>, i: int): seq<Channel>
    requires -1 <= i < |ch|
  {
    if i < 0 then ch else ch[i := ch[i].(cndtr := 0)]
  }

  function Complete(isr: nat, i: int): nat
    requires -1 <= i
  {
    if i < 0 then isr else WithBit(WithBit(isr, i * 4 + 1, true), i * 4, true)
  }

  function WithIrq(b: Board): Board
    requires |b.ch| == CHANNELS
  {
    b.(irqLow := Requesting(b.isr, b.ch, 0, 3), irqHigh := Requesting(b.isr, b.ch, 3, CHANNELS))
  }

  /** py32_dma_run_for_spi */
  function Kick(b: Board): Board
    requires b.store.chip.Valid() && |b.ch| == CHANNELS
  {
    var tx, rx := LastArmed(b.ch, true, CHANNELS), LastArmed(b.ch, false, CHANNELS);
    if tx < 0 && rx < 0 then b
    else
      var count := if tx >= 0 then b.ch[tx].cndtr else b.ch[rx].cndtr;
      var (c, m) := Clocked(b.store.chip, b.ram, PortOf(b.ch, tx), PortOf(b.ch, rx), count);
      WithIrq(b.(store := b.store.(chip := c), ram := m,
                 ch := Drained(Drained(b.ch, tx), rx),
                 isr := Complete(Complete(b.isr, tx), rx)))
  }

  datatype SpiReg = CR1 | CR2 | SR | DR

  function SpiWrite(b: Board, reg: SpiReg, value: nat): Board
    requires b.store.chip.Valid() && |b.ch| == CHANNELS
  {
    match reg
    case CR1 =>
      var s := b.(cr1 := value);
      if Bit(value, SPE) && Bit(s.cr2, TXDMAEN) then Kick(s) else s
    case CR2 =>
      var s := b.(cr2 := value);
      if Bit(value, TXDMAEN) && Bit(s.cr1, SPE) then Kick(s) else s
    case SR => b.(sr := WithBit(value, TXE, true))
    case DR =>
      var (c, reply) := N.Xfer(b.store.chip, value % 256);
      b.(store := b.store.(chip := c), rx := reply,
         sr := WithBit(WithBit(WithBit(b.sr, RXNE, true), TXE, true), BSY, false))
  }

  datatype DmaReg = CCR | CNDTR | CPAR | CMAR

  /** Writing a channel register only arms the channel; nothing is clocked. */
  function DmaWrite(b: Board, i: nat, reg: DmaReg, value: nat): Board
    requires |b.ch| == CHANNELS
  {
    if i >= CHANNELS then b
    else
      var c := match reg
        case CCR => b.ch[i].(ccr := value)
        case CNDTR => b.ch[i].(cndtr := value, total := value)
        case CPAR => b.ch[i].(cpar := value)
        case CMAR => b.ch[i].(cmar := value);
      b.(ch := b.ch[i := c])
  }

  function ChipSelect(b: Board, level: bool, io: W.Io): Board
    requires b.Valid()
  {
    b.(store := W.Step(b.store, if level then W.Raised(io) else W.Lowered))
  }

  // ------------------------------------------------ when bytes are clocked

  lemma ClockedKeepsSound(s: W.Store, ram: seq<Byte>, tx: Port, rx: Port, k: nat)
    requires W.Sound(s)
    ensures W.Sound(s.(chip := Clocked(s.chip, ram, tx, rx, k).0))
  {
    if k > 0 {
      ClockedKeepsSound(s, ram, tx, rx, k - 1);
      var (d, m) := Clocked(s.chip, ram, tx, rx, k - 1);
      W.XferKeepsSound(s.(chip := d), if tx.Off? then 0xff else Load(m, tx.At(k - 1)));
    }
  }

  lemma KickKeepsValid(b: Board)
    requires b.Valid()
    ensures Kick(b).Valid()
  {
    var tx, rx := LastArmed(b.ch, true, CHANNELS), LastArmed(b.ch, false, CHANNELS);
    if tx >= 0 || rx >= 0 {
      var count := if tx >= 0 then b.ch[tx].cndtr else b.ch[rx].cndtr;
      ClockedKeepsSound(b.store, b.ram, PortOf(b.ch, tx), PortOf(b.ch, rx), count);
    }
  }

  lemma SpiWriteKeepsValid(b: Board, reg: SpiReg, value: nat)
    requires b.Valid()
    ensures SpiWrite(b, reg, value).Valid()
  {
    match reg
    case CR1 => KickKeepsValid(b.(cr1 := value));
    case CR2 => KickKeepsValid(b.(cr2 := value));
    case SR =>
    case DR => W.XferKeepsSound(b.store, value % 256);
  }

  lemma {:induction false} ClockedLosesNothing(s: W.Store, ram: seq<Byte>, tx: Port, rx: Port, k: nat, i: nat)
    requires W.Sound(s) && W.LostAt(s.(chip := Clocked(s.chip, ram, tx, rx, k).0), i)
    ensures W.LostAt(s, i)
  {
    if k > 0 {
      ClockedKeepsSound(s, ram, tx, rx, k - 1);
      var (d, m) := Clocked(s.chip, ram, tx, rx, k - 1);
      W.XferLoses(s.(chip := d), if tx.Off? then 0xff else Load(m, tx.At(k - 1)), i);
      ClockedLosesNothing(s, ram, tx, rx, k - 1, i);
    }
  }

  lemma KickLosesNothing(b: Board, i: nat)
    requires b.Valid() && W.LostAt(Kick(b).store, i)
    ensures W.LostAt(b.store, i)
  {
    var tx, rx := LastArmed(b.ch, true, CHANNELS), LastArmed(b.ch, false, CHANNELS);
    if tx >= 0 || rx >= 0 {
      var count := if tx >= 0 then b.ch[tx].cndtr else b.ch[rx].cndtr;
      ClockedLosesNothing(b.store, b.ram, PortOf(b.ch, tx), PortOf(b.ch, rx), count, i);
    }
  }

  /** No register write, whatever the DMA then does, puts a byte out of the file's reach: one that differs outside
      the dirty range did so before. */
  lemma SpiWriteLosesNothing(b: Board, reg: SpiReg, value: nat, i: nat)
    requires b.Valid() && W.LostAt(SpiWrite(b, reg, value).store, i)
    ensures W.LostAt(b.store, i)
  {
    match reg
    case CR1 =>
      if SpiWrite(b, reg, value) != b.(cr1 := value) {
        KickLosesNothing(b.(cr1 := value), i);
      }
    case CR2 =>
      if SpiWrite(b, reg, value) != b.(cr2 := value) {
        KickLosesNothing(b.(cr2 := value), i);
      }
    case SR =>
    case DR => W.XferLoses(b.store, value % 256, i);
  }

  ghost predicate NoneArmed(ch: seq<Channel>)
  {
    forall i, dir :: 0 <= i < |ch| ==> !IsArmed(ch[i], dir)
  }

  /** A write to a control register moves a byte only if it leaves SPE and TXDMAEN both set. */
  lemma ControlGate(b: Board, reg: SpiReg, value: nat)
    requires b.Valid() && (reg == CR1 || reg == CR2)
    requires var s := if reg == CR1 then b.(cr1 := value) else b.(cr2 := value);
             !(Bit(s.cr1, SPE) && Bit(s.cr2, TXDMAEN)) || NoneArmed(b.ch)
    ensures SpiWrite(b, reg, value) == if reg == CR1 then b.(cr1 := value) else b.(cr2 := value)
  {
  }

  /** The channels left armed after a kick are those it did not run. */
  lemma KickSpends(ch: seq<Channel>)
    requires |ch| == CHANNELS
    ensures var tx, rx := LastArmed(ch, true, CHANNELS), LastArmed(ch, false, CHANNELS);
            var spent := Drained(Drained(ch, tx), rx);
            && (tx >= 0 ==> spent[tx].cndtr == 0) && (rx >= 0 ==> spent[rx].cndtr == 0)
            && (NoneArmed(spent) <==>
                  forall i, dir :: 0 <= i < CHANNELS && i != tx && i != rx ==> !IsArmed(ch[i], dir))
  {
    var tx, rx := LastArmed(ch, true, CHANNELS), LastArmed(ch, false, CHANNELS);
    var spent := Drained(Drained(ch, tx), rx);
    assert forall i :: 0 <= i < CHANNELS && i != tx && i != rx ==> spent[i] == ch[i];
  }

  lemma KickSome(b: Board)
    requires b.Valid()
    ensures var tx, rx := LastArmed(b.ch, true, CHANNELS), LastArmed(b.ch, false, CHANNELS);
            Kick(b).ch == Drained(Drained(b.ch, tx), rx)
    ensures NoneArmed(b.ch) ==> Kick(b) == b
    ensures !NoneArmed(b.ch) ==> Kick(b).ch != b.ch
  {
    if !NoneArmed(b.ch) {
      var i, dir :| 0 <= i < |b.ch| && IsArmed(b.ch[i], dir);
      var tx, rx := LastArmed(b.ch, true, CHANNELS), LastArmed(b.ch, false, CHANNELS);
      assert tx >= 0 || rx >= 0;
      KickSpends(b.ch);
    }
  }

  /** The channels a kick ran are spent: kicking again does nothing until a count is rewritten,
      exactly if no second channel was armed in the same direction. */
  lemma KickRunsOnce(b: Board)
    requires b.Valid()
    ensures var tx, rx := LastArmed(b.ch, true, CHANNELS), LastArmed(b.ch, false, CHANNELS);
            && (tx >= 0 ==> Kick(b).ch[tx].cndtr == 0) && (rx >= 0 ==> Kick(b).ch[rx].cndtr == 0)
            && (Kick(Kick(b)) == Kick(b) <==>
                  forall i, dir :: 0 <= i < CHANNELS && i != tx && i != rx ==> !IsArmed(b.ch[i], dir))
  {
    KickSpends(b.ch);
    KickSome(b);
    KickKeepsValid(b);
    KickSome(Kick(b));
  }

  // ------------------------------------------------ the flags and lines of a finished transfer

  /** Enabled, with a count left, addressed to the flash's controller, in one direction: read off the registers. */
  predicate Asks(c: Channel, dir: bool)
  {
    Bit(c.ccr, 0) && c.cndtr > 0 && 0x4000_3800 <= c.cpar < 0x4000_3c00 && Bit(c.ccr, 4) == dir
  }

  /** Channel i runs in the next transfer: no later one asks in its direction. */
  ghost predicate Runs(ch: seq<Channel>, i: nat)
    requires i < |ch|
  {
    exists dir :: Asks(ch[i], dir) && forall j :: i < j < |ch| ==> !Asks(ch[j], dir)
  }

  ghost predicate SomeRuns(ch: seq<Channel>)
  {
    exists i :: 0 <= i < |ch| && Runs(ch, i)
  }

  /** After a transfer of these channels, the flags: the global and the transfer-complete flag of every channel that
      ran have come up, and no other flag has changed. */
  ghost predicate Flagged(ch: seq<Channel>, before: nat, after: nat)
  {
    forall k: nat :: Bit(after, k) <==> Bit(before, k) || (k / 4 < |ch| && k % 4 < 2 && Runs(ch, k / 4))
  }

  /** A channel of the group wants the interrupt of a transfer just completed, or of an earlier one. */
  ghost predicate Wanted(ch: seq<Channel>, before: nat, from: nat, to: nat)
    requires to <= |ch|
  {
    exists i :: from <= i < to && Bit(ch[i].ccr, 1) && (Runs(ch, i) || Bit(before, 4 * i + 1))
  }

  lemma ArmedAsks(c: Channel, dir: bool)
    ensures IsArmed(c, dir) <==> Asks(c, dir)
  {
  }

  lemma LastRuns(ch: seq<Channel>, i: nat)
    requires i < |ch|
    ensures Runs(ch, i) <==> i == LastArmed(ch, true, |ch|) || i == LastArmed(ch, false, |ch|)
  {
    forall j, dir | 0 <= j < |ch|
      ensures IsArmed(ch[j], dir) <==> Asks(ch[j], dir)
    {
      ArmedAsks(ch[j], dir);
    }
    if i == LastArmed(ch, true, |ch|) {
      assert Asks(ch[i], true);
    }
    if i == LastArmed(ch, false, |ch|) {
      assert Asks(ch[i], false);
    }
  }

  lemma CompleteBits(isr: nat, i: int, k: nat)
    requires -1 <= i
    ensures Bit(Complete(isr, i), k) <==> Bit(isr, k) || (k / 4 == i && k % 4 < 2)
  {
    if i >= 0 {
      WithBitBits(isr, i * 4 + 1, true, k);
      WithBitBits(WithBit(isr, i * 4 + 1, true), i * 4, true, k);
    }
  }

  lemma KickIsr(b: Board)
    requires b.Valid()
    ensures Kick(b).isr == Complete(Complete(b.isr, LastArmed(b.ch, true, CHANNELS)), LastArmed(b.ch, false, CHANNELS))
  {
  }

  /** A transfer raises the two flags of every channel it ran, and touches no other. */
  lemma KickFlags(b: Board)
    requires b.Valid()
    ensures Flagged(b.ch, b.isr, Kick(b).isr)
  {
    var tx, rx := LastArmed(b.ch, true, CHANNELS), LastArmed(b.ch, false, CHANNELS);
    KickIsr(b);
    forall k: nat
      ensures Bit(Kick(b).isr, k) <==> Bit(b.isr, k) || (k / 4 < |b.ch| && k % 4 < 2 && Runs(b.ch, k / 4))
    {
      CompleteBits(b.isr, tx, k);
      CompleteBits(Complete(b.isr, tx), rx, k);
      if k / 4 < |b.ch| {
        LastRuns(b.ch, k / 4);
      }
    }
  }

  lemma LineWanted(b: Board, from: nat, to: nat)
    requires b.Valid() && from <= to <= CHANNELS
    ensures Requesting(Kick(b).isr, Kick(b).ch, from, to) <==> Wanted(b.ch, b.isr, from, to)
  {
    KickFlags(b);
    KickSome(b);
    forall i | from <= i < to
      ensures Kick(b).ch[i].ccr == b.ch[i].ccr
      ensures Bit(Kick(b).isr, i * 4 + 1) <==> Runs(b.ch, i) || Bit(b.isr, 4 * i + 1)
    {
      assert (i * 4 + 1) / 4 == i && (i * 4 + 1) % 4 == 1;
    }
    if Wanted(b.ch, b.isr, from, to) {
      var i :| from <= i < to && Bit(b.ch[i].ccr, 1) && (Runs(b.ch, i) || Bit(b.isr, 4 * i + 1));
      assert Bit(Kick(b).ch[i].ccr, TCIE) && Bit(Kick(b).isr, i * 4 + 1);
    }
  }

  lemma NoneRuns(ch: seq<Channel>)
    ensures NoneArmed(ch) <==> !SomeRuns(ch)
  {
    if i, dir :| 0 <= i < |ch| && IsArmed(ch[i], dir) {
      var last := LastArmed(ch, dir, |ch|);
      assert last >= 0;
      LastRuns(ch, last);
    }
    if i :| 0 <= i < |ch| && Runs(ch, i) {
      LastRuns(ch, i);
    }
  }

  /** And it raises a group's line exactly if a channel of the group wants the interrupt and has run, now or before;
      with nothing to run, nothing changes. */
  lemma KickLines(b: Board)
    requires b.Valid()
    ensures if SomeRuns(b.ch) then
              && (Kick(b).irqLow <==> Wanted(b.ch, b.isr, 0, 3))
              && (Kick(b).irqHigh <==> Wanted(b.ch, b.isr, 3, 7))
            else Kick(b) == b
  {
    NoneRuns(b.ch);
    KickSome(b);
    LineWanted(b, 0, 3);
    LineWanted(b, 3, 7);
    if SomeRuns(b.ch) {
      KickLinesUp(b);
    }
  }

  lemma KickLinesUp(b: Board)
    requires b.Valid() && !NoneArmed(b.ch)
    ensures Kick(b).irqLow == Requesting(Kick(b).isr, Kick(b).ch, 0, 3)
    ensures Kick(b).irqHigh == Requesting(Kick(b).isr, Kick(b).ch, 3, CHANNELS)
  {
  }

  /** Channel i is the one that runs in that direction, or none does and i is -1. */
  ghost predicate RunsIn(ch: seq<Channel>, dir: bool, i: int)
  {
    && -1 <= i < |ch| && (i >= 0 ==> Asks(ch[i], dir))
    && forall j :: i < j < |ch| ==> !Asks(ch[j], dir)
  }

  /** A channel's address, and whether it advances: bit 7 of its control register. */
  predicate PortAt(ch: seq<Channel>, i: int, p: Port)
    requires -1 <= i < |ch|
  {
    if i < 0 then p == Off else p == On(ch[i].cmar, Bit(ch[i].ccr, 7))
  }

  /** What moves: as many bytes as the sending channel's count says, or the receiving one's if nothing is sent, from the
      one's address and to the other's. */
  lemma KickMoves(b: Board, t: int, r: int, tx: Port, rx: Port)
    requires b.Valid() && RunsIn(b.ch, true, t) && RunsIn(b.ch, false, r) && PortAt(b.ch, t, tx) && PortAt(b.ch, r, rx)
    requires t >= 0 || r >= 0
    ensures var n := if t >= 0 then b.ch[t].cndtr else b.ch[r].cndtr;
            var (c, m) := Clocked(b.store.chip, b.ram, tx, rx, n);
            Kick(b).store == b.store.(chip := c) && Kick(b).ram == m
  {
    LastIs(b.ch, true, t);
    LastIs(b.ch, false, r);
  }

  lemma LastIs(ch: seq<Channel>, dir: bool, i: int)
    requires RunsIn(ch, dir, i)
    ensures i == LastArmed(ch, dir, |ch|)
  {
    var last := LastArmed(ch, dir, |ch|);
    if i >= 0 {
      ArmedAsks(ch[i], dir);
    }
    if last >= 0 {
      ArmedAsks(ch[last], dir);
    }
  }

  /** The status register takes any value written, but with TXE up; the data register's write alone moves a byte. */
  lemma StatusKeepsReady(b: Board, value: nat, k: nat)
    requires b.Valid()
    ensures SpiWrite(b, SR, value) == b.(sr := SpiWrite(b, SR, value).sr)
    ensures Bit(SpiWrite(b, SR, value).sr, k) <==> Bit(value, k) || k == 1
  {
    WithBitBits(value, TXE, true, k);
  }

  /** Every channel that ran is left with a count of zero, and nothing else in the channels changes. */
  lemma KickCounts(b: Board, i: nat)
    requires b.Valid() && i < CHANNELS
    ensures |Kick(b).ch| == CHANNELS
    ensures Kick(b).ch[i] == if Runs(b.ch, i) then b.ch[i].(cndtr := 0) else b.ch[i]
  {
    KickSome(b);
    LastRuns(b.ch, i);
  }

  /** py32_dma_write, for the flag-clear register */
  function ClearFlags(b: Board, value: nat): Board
    requires |b.ch| == CHANNELS
  {
    WithIrq(b.(isr := Cleared(b.isr, value)))
  }

  /** Exactly the flags named are cleared, and the lines follow. */
  lemma ClearFlagsBits(b: Board, value: nat)
    requires |b.ch| == CHANNELS
    ensures var r := ClearFlags(b, value);
            && (forall k: nat :: Bit(r.isr, k) <==> Bit(b.isr, k) && !Bit(value, k))
            && (r.irqLow <==> exists i :: 0 <= i < 3 && Bit(b.ch[i].ccr, 1) && Bit(r.isr, 4 * i + 1))
            && (r.irqHigh <==> exists i :: 3 <= i < 7 && Bit(b.ch[i].ccr, 1) && Bit(r.isr, 4 * i + 1))
            && r == b.(isr := r.isr, irqLow := r.irqLow, irqHigh := r.irqHigh)
  {
    var r := ClearFlags(b, value);
    forall k: nat
      ensures Bit(r.isr, k) <==> Bit(b.isr, k) && !Bit(value, k)
    {
      ClearedBits(b.isr, value, k);
    }
    assert forall i :: 0 <= i < 7 ==> i * 4 + 1 == 4 * i + 1;
  }
}
