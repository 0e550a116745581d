/** The SPI controller and the DMA engine as the emulator keeps them. */
module SpiDma {
  import opened Bits
  import opened FlashDevice
  import D = Dma
  import N = Nor
  import W = WriteBack

  class Soc {
    const flash: Py25q16
    const sram: array<Byte>
    const ch: array<D.Channel>
    var cr1: nat
    var cr2: nat
    var sr: nat
    var rx: Byte
    var isr: nat
    var irqLow: bool
    var irqHigh: bool

    ghost function Board(): D.Board
      reads this, flash, flash.data, sram, ch
    {
      D.Board(flash.Store(), cr1, cr2, sr, rx, isr, ch[..], irqLow, irqHigh, sram[..])
    }

    ghost predicate Valid()
      reads this, flash, flash.data, sram, ch
    {
      flash.Valid() && sram != flash.data && sram.Length == D.SRAM_SIZE && ch.Length == D.CHANNELS
    }

    constructor (flash: Py25q16)
      requires flash.Valid()
      ensures Valid() && this.flash == flash && fresh(sram) && fresh(ch)
      ensures D.NoneArmed(Board().ch)
    {
      this.flash := flash;
      sram := new Byte[D.SRAM_SIZE](i => 0);
      ch := new D.Channel[D.CHANNELS](i => D.Channel(0, 0, 0, 0, 0));
      cr1, cr2, sr, rx, isr := 0, 0, 2, 0xff, 0;
      irqLow, irqHigh := false, false;
    }

    method ReadMemory(a: nat) returns (b: Byte)
      requires sram.Length == D.SRAM_SIZE
      ensures b == D.Load(sram[..], a)
    {
      b := if D.SRAM_BASE <= a < D.SRAM_BASE + sram.Length then sram[a - D.SRAM_BASE] else 0;
    }

    method WriteMemory(a: nat, b: Byte)
      requires sram.Length == D.SRAM_SIZE
      modifies sram
      ensures sram[..] == D.Put(old(sram[..]), a, b)
    {
      if D.SRAM_BASE <= a < D.SRAM_BASE + sram.Length {
        sram[a - D.SRAM_BASE] := b;
      }
    }

    /** py32_dma_update_irq */
    method UpdateIrq()
      requires ch.Length == D.CHANNELS
      modifies `irqLow, `irqHigh
      ensures irqLow == D.Requesting(isr, ch[..], 0, 3) && irqHigh == D.Requesting(isr, ch[..], 3, D.CHANNELS)
    {
      irqLow, irqHigh := D.IrqLines(ch, isr);
    }

    /** The channels to run: the last one armed for this controller in each direction. */
    method FindArmed() returns (tx: int, rx: int)
      requires ch.Length == D.CHANNELS
      ensures tx == D.LastArmed(ch[..], true, D.CHANNELS) && rx == D.LastArmed(ch[..], false, D.CHANNELS)
    {
      tx, rx := -1, -1;
      for i := 0 to D.CHANNELS
        invariant tx == D.LastArmed(ch[..], true, i) && rx == D.LastArmed(ch[..], false, i)
      {
        var c := ch[i];
        if !Bit(c.ccr, D.EN) || c.cndtr == 0 {
          continue;
        }
        if c.cpar / 0x400 * 0x400 != D.SPI2_BASE {
          continue;
        }
        if Bit(c.ccr, D.DIR) {
          tx := i;
        } else {
          rx := i;
        }
      }
    }

    /** The duplex loop: one byte out, one byte in, both addresses stepped together. */
    method Transfer(tx: D.Port, rx: D.Port, total: nat)
      requires Valid()
      modifies flash, flash.data, sram
      ensures Valid() && flash.file == old(flash.file)
      ensures (flash.Chip(), sram[..]) == D.Clocked(old(flash.Chip()), old(sram[..]), tx, rx, total)
    {
      ghost var c, m := flash.Chip(), sram[..];
      var txAddr: nat, rxAddr: nat := if tx.On? then tx.At(0) else 0, if rx.On? then rx.At(0) else 0;
      var count: nat := total;
      while count > 0
        invariant Valid() && flash.file == old(flash.file) && count <= total
        invariant (flash.Chip(), sram[..]) == D.Clocked(c, m, tx, rx, total - count)
        invariant (tx.On? ==> txAddr == tx.At(total - count)) && (rx.On? ==> rxAddr == rx.At(total - count))
      {
        ghost var k := total - count;
        ghost var d, n := flash.Chip(), sram[..];
        ClockByte(tx.On?, txAddr, rx.On?, rxAddr);
        if tx.On? && tx.inc {
          D.NextAddress(tx, k);
          txAddr := (txAddr + 1) % WORD32;
        }
        if rx.On? && rx.inc {
          D.NextAddress(rx, k);
          rxAddr := (rxAddr + 1) % WORD32;
        }
        count := count - 1;
        D.ClockedNext(c, m, tx, rx, k, d, n);
      }
    }

    method ClockByte(send: bool, txAddr: nat, receive: bool, rxAddr: nat)
      requires Valid()
      modifies flash, flash.data, sram
      ensures Valid() && flash.file == old(flash.file)
      ensures var m := old(sram[..]);
              var (c, reply) := N.Xfer(old(flash.Chip()), if send then D.Load(m, txAddr) else 0xff);
              flash.Chip() == c && sram[..] == if receive then D.Put(m, rxAddr, reply) else m
    {
      var out: Byte := 0xff;
      if send {
        out := ReadMemory(txAddr);
      }
      var reply := flash.Xfer(out);
      if receive {
        WriteMemory(rxAddr, reply);
      }
    }

    /** py32_dma_run_for_spi */
    method RunForSpi()
      requires Valid()
      modifies this, flash, flash.data, sram, ch
      ensures Valid() && Board() == D.Kick(old(Board()))
      ensures D.Flagged(old(ch[..]), old(isr), isr)
      ensures D.SomeRuns(old(ch[..])) ==>
                && (irqLow <==> D.Wanted(old(ch[..]), old(isr), 0, 3))
                && (irqHigh <==> D.Wanted(old(ch[..]), old(isr), 3, 7))
      ensures !D.SomeRuns(old(ch[..])) ==> Board() == old(Board())
    {
      D.KickFlags(Board());
      D.KickLines(Board());
      RunArmed();
    }

    method RunArmed()
      requires Valid()
      modifies this, flash, flash.data, sram, ch
      ensures Valid() && Board() == D.Kick(old(Board()))
    {
      var t, r := FindArmed();
      if t < 0 && r < 0 {
        return;
      }
      var count := if t >= 0 then ch[t].cndtr else ch[r].cndtr;
      var txPort := if t >= 0 then D.On(ch[t].cmar, Bit(ch[t].ccr, D.MINC)) else D.Off;
      var rxPort := if r >= 0 then D.On(ch[r].cmar, Bit(ch[r].ccr, D.MINC)) else D.Off;
      Transfer(txPort, rxPort, count);
      Finish(t);
      Finish(r);
      UpdateIrq();
    }

    /** A channel that has run: count zero, transfer-complete and global flags up. */
    method Finish(i: int)
      requires ch.Length == D.CHANNELS && -1 <= i < ch.Length
      modifies ch, `isr
      ensures ch[..] == D.Drained(old(ch[..]), i) && isr == D.Complete(old(isr), i)
    {
      if i >= 0 {
        ch[i] := ch[i].(cndtr := 0);
        isr := WithBit(WithBit(isr, i * 4 + 1, true), i * 4, true);
      }
    }

    /** py32_spi_write */
    method SpiWrite(reg: D.SpiReg, value: nat)
      requires Valid()
      modifies this, flash, flash.data, sram, ch
      ensures Valid() && Board() == D.SpiWrite(old(Board()), reg, value)
    {
      match reg
      case CR1 =>
        cr1 := value;
        if Bit(value, D.SPE) && Bit(cr2, D.TXDMAEN) {
          RunForSpi();
        }
      case CR2 =>
        cr2 := value;
        if Bit(value, D.TXDMAEN) && Bit(cr1, D.SPE) {
          RunForSpi();
        }
      case SR =>
        sr := WithBit(value, D.TXE, true);
      case DR =>
        rx := flash.Xfer(value % 256);
        sr := WithBit(WithBit(sr, D.RXNE, true), D.TXE, true);
        sr := WithBit(sr, D.BSY, false);
    }

    /** py32_dma_write, for a channel register */
    method DmaWrite(i: nat, reg: D.DmaReg, value: nat)
      requires Valid()
      modifies ch
      ensures Valid() && Board() == D.DmaWrite(old(Board()), i, reg, value)
    {
      if i >= D.CHANNELS {
        return;
      }
      match reg
      case CCR => ch[i] := ch[i].(ccr := value);
      case CNDTR => ch[i] := ch[i].(cndtr := value, total := value);
      case CPAR => ch[i] := ch[i].(cpar := value);
      case CMAR => ch[i] := ch[i].(cmar := value);
    }

    /** py32_dma_write, for the flag-clear register: exactly the flags named go down, and the lines follow. */
    method ClearFlags(value: nat)
      requires Valid()
      modifies `isr, `irqLow, `irqHigh
      ensures Valid() && Board() == D.ClearFlags(old(Board()), value)
      ensures forall k: nat :: Bit(isr, k) <==> Bit(old(isr), k) && !Bit(value, k)
      ensures irqLow <==> exists i :: 0 <= i < 3 && Bit(ch[i].ccr, 1) && Bit(isr, 4 * i + 1)
      ensures irqHigh <==> exists i :: 3 <= i < 7 && Bit(ch[i].ccr, 1) && Bit(isr, 4 * i + 1)
    {
      D.ClearFlagsBits(Board(), value);
      isr := Cleared(isr, value);
      UpdateIrq();
    }

    /** py32_spi_read, for the data register: the byte received last, and RXNE goes down. */
    method ReadData() returns (b: Byte)
      modifies `sr
      ensures b == rx && forall k: nat :: Bit(sr, k) <==> Bit(old(sr), k) && k != 0
    {
      forall k: nat
        ensures Bit(WithBit(sr, D.RXNE, false), k) <==> Bit(sr, k) && k != 0
      {
        WithBitBits(sr, D.RXNE, false, k);
      }
      sr := WithBit(sr, D.RXNE, false);
      b := rx;
    }

    method SetCs(level: bool, io: W.Io)
      requires Valid()
      modifies flash
      ensures Valid() && Board() == D.ChipSelect(old(Board()), level, io)
    {
      flash.SetCs(level, io);
    }
  }
}
