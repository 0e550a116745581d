/** The PY25Q16 serial NOR flash, byte by byte: Chip is the device's own register state. */
module Nor {
  import opened Bits

  const SIZE: nat := 0x20_0000
  const PAGE: nat := 0x100
  const SECTOR: nat := 0x1000

  const NONE: Byte := 0x00
  const PP: Byte := 0x02
  const READ: Byte := 0x03
  const WRDI: Byte := 0x04
  const RDSR: Byte := 0x05
  const WREN: Byte := 0x06
  const SE: Byte := 0x20
  const JEDEC: Byte := 0x9f

  datatype Chip = Chip(data: seq<Byte>, selected: bool, cmd: Byte, addr: nat, phase: nat, wren: bool,
                       dirty: bool, lo: nat, hi: nat)
  {
    ghost predicate Valid()
    {
      |data| == SIZE && addr < WORD32 && phase < WORD32 && (dirty ==> lo < hi <= SIZE)
    }
  }

  // ------------------------------------------------ the device

  /** Widens the dirty range to take in [a, a + len), clipped to the image. */
  function MarkDirty(c: Chip, a: nat, len: nat): Chip
  {
    var at := if a >= SIZE then a % SIZE else a;
    var n := if len > SIZE then SIZE else len;
    var m := if at + n > SIZE then SIZE - at else n;
    c.(lo := if !c.dirty || at < c.lo then at else c.lo,
       hi := if !c.dirty || at + m > c.hi then at + m else c.hi,
       dirty := true)
  }

  /** The 24-bit address register after one more address byte; it is 32 bits wide. */
  function ShiftAddr(a: nat, out: Byte): (r: nat)
    ensures r < WORD32
  {
    (a * 256 + out) % WORD32
  }

  /** Where programming continues after address a: the next byte of the same page. */
  function NextInPage(a: nat): nat
  {
    a / PAGE * PAGE + (a + 1) % PAGE
  }

  function Filled(data: seq<Byte>, from: nat, to: nat, b: Byte): (r: seq<Byte>)
    ensures |r| == |data|
    ensures forall i :: 0 <= i < |data| ==> r[i] == if from <= i < to then b else data[i]
  {
    seq(|data|, i requires 0 <= i < |data| => if from <= i < to then b else data[i])
  }

  /** One byte clocked through the chip: the new state and the byte it answers. */
  function Xfer(c: Chip, out: Byte): (Chip, Byte)
    requires c.Valid()
  {
    if !c.selected then (c, 0xff)
    else if c.cmd == NONE then
      var s := c.(cmd := out, phase := 0, addr := 0);
      (if out == WREN then s.(wren := true, cmd := NONE)
       else if out == WRDI then s.(wren := false, cmd := NONE)
       else s, 0xff)
    else
      var s := c.(phase := (c.phase + 1) % WORD32);
      if s.cmd == READ then
        if s.phase <= 3 then (s.(addr := ShiftAddr(s.addr, out)), 0xff)
        else (s.(addr := (s.addr + 1) % WORD32), s.data[s.addr % SIZE])
      else if s.cmd == PP then
        if s.phase <= 3 then (s.(addr := ShiftAddr(s.addr, out)), 0xff)
        else
          var at := s.addr % SIZE;
          var p := if s.wren then MarkDirty(s.(data := s.data[at := And(s.data[at], out)]), at, 1) else s;
          (p.(addr := NextInPage(s.addr)), 0xff)
      else if s.cmd == SE then
        if s.phase <= 3 then
          var t := s.(addr := ShiftAddr(s.addr, out));
          if s.phase == 3 && s.wren then
            var at := t.addr / SECTOR * SECTOR % SIZE;
            (MarkDirty(t.(data := Filled(t.data, at, at + SECTOR, 0xff)), at, SECTOR), 0xff)
          else (t, 0xff)
        else (s, 0xff)
      else if s.cmd == RDSR then (s, if s.wren then 0x02 else 0x00)
      else if s.cmd == JEDEC then
        (s, if s.phase == 1 then 0x85 else if s.phase == 2 then 0x60 else if s.phase == 3 then 0x15 else 0xff)
      else (s, 0xff)
  }

  /** The falling edge of chip select starts a fresh command. */
  function Select(c: Chip): Chip
  {
    if c.selected then c else c.(cmd := NONE, phase := 0, selected := true)
  }

  /** The rising edge, without the write-back it triggers. */
  function Deselect(c: Chip): Chip
  {
    if c.selected then c.(cmd := NONE, phase := 0, selected := false) else c
  }

  function XferAll(c: Chip, bs: seq<Byte>): Chip
    requires c.Valid()
    ensures XferAll(c, bs).Valid() && XferAll(c, bs).selected == c.selected
  {
    if bs == [] then c
    else
      var p := XferAll(c, bs[..|bs| - 1]);
      XferKeepsValid(p, bs[|bs| - 1]);
      Xfer(p, bs[|bs| - 1]).0
  }

  lemma SectorFits(a: nat)
    ensures a / SECTOR * SECTOR % SIZE + SECTOR <= SIZE
    ensures a / SECTOR * SECTOR % SIZE % SECTOR == 0
  {
    SectorOf(a / SECTOR / 512, a / SECTOR % 512);
  }

  lemma SectorOf(q: nat, r: nat)
    requires r < 512
    ensures (q * 512 + r) * SECTOR % SIZE == r * SECTOR
    ensures r * SECTOR + SECTOR <= SIZE && r * SECTOR % SECTOR == 0
  {
    assert (q * 512 + r) * 0x1000 == q * 0x20_0000 + r * 0x1000;
  }

  /** Every index a run of bytes touches is in range, and the registers keep their widths. */
  lemma XferKeepsValid(c: Chip, out: Byte)
    requires c.Valid()
    ensures Xfer(c, out).0.Valid() && Xfer(c, out).0.selected == c.selected
  {
    var s := c.(phase := (c.phase + 1) % WORD32);
    if c.selected && c.cmd == SE && s.phase == 3 {
      SectorFits(ShiftAddr(s.addr, out));
    }
  }
}
