/** The firmware's sector rewrite: read by DMA, patch, erase, program. */
module SectorRewrite {
  import opened Bits
  import opened Dma
  import opened Transfers
  import N = Nor
  import F = NorFrames
  import R = NorRuns
  import W = WriteBack

  // ------------------------------------------------ the driver's register sequences

  function SendAll(b: Board, bs: seq<Byte>): (r: Board)
    requires b.Valid()
    ensures r.Valid()
  {
    if bs == [] then b
    else
      var p := SendAll(b, bs[..|bs| - 1]);
      SpiWriteKeepsValid(p, DR, bs[|bs| - 1]);
      SpiWrite(p, DR, bs[|bs| - 1])
  }

  function Arm(b: Board, i: nat, count: nat, addr: nat, ccr: nat): Board
    requires |b.ch| == CHANNELS
  {
    DmaWrite(DmaWrite(DmaWrite(DmaWrite(b, i, CPAR, SPI2_BASE), i, CMAR, addr), i, CNDTR, count), i, CCR, ccr)
  }

  /** Enable and interrupt, plus the direction and the address increment. */
  function CcrOf(p: Port, dir: bool): nat
    requires p.On?
  {
    3 + (if dir then 16 else 0) + (if p.inc then 128 else 0)
  }

  /** Arm the receive channel, arm the transmit channel, RXDMAEN, SPE, TXDMAEN; then the
      requests are withdrawn. */
  function Transfer(b: Board, tx: Port, rx: Port, n: nat): Board
    requires b.Valid() && tx.On? && rx.On?
  {
    var b1 := Arm(b, 3, n, rx.addr, CcrOf(rx, false));
    var b2 := Arm(b1, 4, n, tx.addr, CcrOf(tx, true));
    var b3 := SpiWrite(b2, CR2, 0x01);
    var b4 := SpiWrite(b3, CR1, 0x40);
    KickKeepsValid(b4.(cr2 := 0x03));
    var b5 := SpiWrite(b4, CR2, 0x03);
    SpiWrite(b5, CR2, 0x00)
  }

  lemma CcrBits(p: Port, dir: bool)
    requires p.On?
    ensures var v := CcrOf(p, dir); Bit(v, EN) && Bit(v, TCIE) && Bit(v, DIR) == dir && Bit(v, MINC) == p.inc
  {
    NibbleUp(CcrOf(p, dir), 0);
    NibbleUp(CcrOf(p, dir), 3);
    assert CcrOf(p, dir) / 16 == (if dir then 1 else 0) + (if p.inc then 8 else 0);
  }

  lemma ControlBits()
    ensures Bit(0x40, SPE) && Bit(0x03, TXDMAEN) && !Bit(0x01, TXDMAEN) && !Bit(0x00, TXDMAEN)
  {
    NibbleUp(0x40, 2);
  }

  lemma ArmEffect(b: Board, i: nat, count: nat, p: Port, dir: bool)
    requires b.Valid() && i < CHANNELS && count != 0 && p.On?
    ensures Arm(b, i, count, p.addr, CcrOf(p, dir)) ==
            b.(ch := b.ch[i := Channel(CcrOf(p, dir), count, SPI2_BASE, p.addr, count)])
    ensures IsArmed(Channel(CcrOf(p, dir), count, SPI2_BASE, p.addr, count), dir)
    ensures !IsArmed(Channel(CcrOf(p, dir), count, SPI2_BASE, p.addr, count), !dir)
  {
    CcrBits(p, dir);
  }

  /** Nothing is clocked until TXDMAEN joins SPE; then each armed byte is, once. */
  lemma TransferEffect(b: Board, tx: Port, rx: Port, n: nat)
    requires b.Valid() && NoneArmed(b.ch) && tx.On? && rx.On? && n != 0
    ensures var (c, m) := Clocked(b.store.chip, b.ram, tx, rx, n);
            var r := Transfer(b, tx, rx, n);
            r.Valid() && r.store == b.store.(chip := c) && r.ram == m && NoneArmed(r.ch)
  {
    ArmEffect(b, 3, n, rx, false);
    var b1 := Arm(b, 3, n, rx.addr, CcrOf(rx, false));
    ArmEffect(b1, 4, n, tx, true);
    var b2 := Arm(b1, 4, n, tx.addr, CcrOf(tx, true));
    ControlBits();
    var b4 := b2.(cr1 := 0x40, cr2 := 0x03);
    assert IsArmed(b4.ch[4], true) && IsArmed(b4.ch[3], false) && !IsArmed(b4.ch[4], false);
    assert forall i, dir :: 0 <= i < CHANNELS && i != 3 && i != 4 ==> !IsArmed(b4.ch[i], dir);
    assert LastArmed(b4.ch, true, CHANNELS) == 4;
    assert LastArmed(b4.ch, false, CHANNELS) == 3;
    CcrBits(tx, true);
    CcrBits(rx, false);
    KickKeepsValid(b4);
    KickSpends(b4.ch);
    KickSome(b4);
    assert Transfer(b, tx, rx, n) == SpiWrite(Kick(b4), CR2, 0x00);
  }

  /** The driver's transfer as one kick of the board it armed. */
  lemma TransferKicks(b: Board, tx: Port, rx: Port, n: nat)
    requires b.Valid() && NoneArmed(b.ch) && tx.On? && rx.On? && n != 0
    ensures var low, high := Channel(CcrOf(rx, false), n, SPI2_BASE, rx.addr, n),
                             Channel(CcrOf(tx, true), n, SPI2_BASE, tx.addr, n);
            var armed := b.(ch := b.ch[3 := low][4 := high], cr1 := 0x40, cr2 := 0x03);
            Transfer(b, tx, rx, n) == Kick(armed).(cr2 := 0x00)
  {
    ArmEffect(b, 3, n, rx, false);
    ArmEffect(Arm(b, 3, n, rx.addr, CcrOf(rx, false)), 4, n, tx, true);
    ControlBits();
  }

  /** A transfer of the driver: channels 3 and 4 have finished, and say so. */
  ghost predicate Finished(b: Board, r: Board)
    requires |b.ch| == CHANNELS
  {
    && (forall k: nat :: Bit(r.isr, k) <==> Bit(b.isr, k) || k == 12 || k == 13 || k == 16 || k == 17)
    && r.irqHigh && (r.irqLow <==> exists i :: 0 <= i < 3 && Bit(b.ch[i].ccr, 1) && Bit(b.isr, 4 * i + 1))
  }

  lemma OnlyBothRun(ch: seq<Channel>, i: nat)
    requires |ch| == CHANNELS && i < CHANNELS
    requires Asks(ch[3], false) && !Asks(ch[3], true) && Asks(ch[4], true) && !Asks(ch[4], false)
    requires forall j, dir :: 0 <= j < CHANNELS && j != 3 && j != 4 ==> !Asks(ch[j], dir)
    ensures Runs(ch, i) <==> i == 3 || i == 4
  {
    if i == 3 {
      assert Asks(ch[i], false);
    }
    if i == 4 {
      assert Asks(ch[i], true);
    }
  }

  /** The flags of channels 3 and 4 come up, and with them the interrupt line that the firmware waits for. */
  lemma TransferRaises(b: Board, tx: Port, rx: Port, n: nat)
    requires b.Valid() && NoneArmed(b.ch) && tx.On? && rx.On? && n != 0
    ensures Finished(b, Transfer(b, tx, rx, n))
  {
    var low, high := Channel(CcrOf(rx, false), n, SPI2_BASE, rx.addr, n),
                     Channel(CcrOf(tx, true), n, SPI2_BASE, tx.addr, n);
    var armed := b.(ch := b.ch[3 := low][4 := high], cr1 := 0x40, cr2 := 0x03);
    TransferKicks(b, tx, rx, n);
    CcrBits(rx, false);
    CcrBits(tx, true);
    forall j, dir | 0 <= j < CHANNELS && j != 3 && j != 4
      ensures !Asks(armed.ch[j], dir)
    {
      ArmedAsks(b.ch[j], dir);
    }
    BothFinish(b, armed);
  }

  lemma BothFinish(b: Board, armed: Board)
    requires b.Valid() && armed.Valid() && armed.isr == b.isr
    requires forall j :: 0 <= j < CHANNELS && j != 3 && j != 4 ==> armed.ch[j] == b.ch[j]
    requires Asks(armed.ch[3], false) && !Asks(armed.ch[3], true)
    requires Asks(armed.ch[4], true) && !Asks(armed.ch[4], false) && Bit(armed.ch[4].ccr, 1)
    requires forall j, dir :: 0 <= j < CHANNELS && j != 3 && j != 4 ==> !Asks(armed.ch[j], dir)
    ensures Finished(b, Kick(armed))
  {
    forall i | 0 <= i < CHANNELS
      ensures Runs(armed.ch, i) <==> i == 3 || i == 4
    {
      OnlyBothRun(armed.ch, i);
    }
    KickFlags(armed);
    KickLines(armed);
    assert Runs(armed.ch, 4);
    assert Wanted(armed.ch, armed.isr, 3, 7);
  }

  // ------------------------------------------------ chip-select frames

  /** Between frames: deselected, nothing armed. */
  ghost predicate Ready(b: Board)
  {
    b.Valid() && !b.store.chip.selected && NoneArmed(b.ch)
  }

  function Contents(b: Board): F.Flash
  {
    F.Flash(b.store.chip.data, b.store.chip.wren)
  }

  /** One frame: select, the bytes of head, a DMA transfer if there is one, deselect. */
  function CommandFrame(b: Board, head: seq<Byte>, io: W.Io): Board
    requires b.Valid()
  {
    W.StepKeepsSound(b.store, W.Lowered);
    ChipSelect(SendAll(ChipSelect(b, false, io), head), true, io)
  }

  function TransferFrame(b: Board, head: seq<Byte>, tx: Port, rx: Port, n: nat, io: W.Io): Board
    requires b.Valid() && NoneArmed(b.ch) && tx.On? && rx.On? && n != 0
  {
    W.StepKeepsSound(b.store, W.Lowered);
    var s := SendAll(ChipSelect(b, false, io), head);
    SendAllEffect(ChipSelect(b, false, io), head);
    TransferEffect(s, tx, rx, n);
    ChipSelect(Transfer(s, tx, rx, n), true, io)
  }

  lemma {:induction false} SendAllEffect(b: Board, bs: seq<Byte>)
    requires b.Valid()
    ensures var r := SendAll(b, bs);
            && r.store == b.store.(chip := N.XferAll(b.store.chip, bs))
            && r.ch == b.ch && r.ram == b.ram && SameFlags(b, r)
  {
    if bs != [] {
      SendAllEffect(b, bs[..|bs| - 1]);
      SendOne(SendAll(b, bs[..|bs| - 1]), bs[|bs| - 1]);
    }
  }

  predicate SameFlags(b: Board, r: Board) { r.isr == b.isr && r.irqLow == b.irqLow && r.irqHigh == b.irqHigh }

  lemma SendOne(b: Board, out: Byte)
    requires b.store.chip.Valid() && |b.ch| == CHANNELS
    ensures var r := SpiWrite(b, DR, out);
            && r.store == b.store.(chip := N.Xfer(b.store.chip, out).0)
            && r.ch == b.ch && r.ram == b.ram && SameFlags(b, r)
  {
    assert out % 256 == out;
  }

  /** A byte sent through the data register: the chip's reply waits there, with the status that a polling guest looks
      for: received and ready up, busy down. */
  lemma ReplyWaits(b: Board, out: Byte, k: nat)
    requires b.store.chip.Valid() && |b.ch| == CHANNELS
    ensures var r := SpiWrite(b, DR, out);
            && r.rx == N.Xfer(b.store.chip, out).1
            && (Bit(r.sr, k) <==> k == 0 || k == 1 || (Bit(b.sr, k) && k != 7))
  {
    assert out % 256 == out;
    var one := WithBit(b.sr, RXNE, true);
    WithBitBits(b.sr, RXNE, true, k);
    WithBitBits(one, TXE, true, k);
    WithBitBits(WithBit(one, TXE, true), BSY, false, k);
  }

  /** Selecting an idle chip opens an empty frame on its contents. */
  lemma SelectOpens(b: Board, io: W.Io)
    requires Ready(b)
    ensures var s := ChipSelect(b, false, io);
            && s.Valid() && F.InFrame(s.store.chip, Contents(b), []) && Contents(s) == Contents(b)
            && s.store == b.store.(chip := N.Select(b.store.chip)) && s.ch == b.ch && s.ram == b.ram
  {
    W.StepKeepsSound(b.store, W.Lowered);
  }

  /** Deselecting leaves what the frame wrote, and writes the file back. */
  lemma DeselectCloses(b: Board, f: F.Flash, frame: seq<Byte>, io: W.Io)
    requires b.Valid() && f.Valid() && NoneArmed(b.ch)
    requires F.InFrame(b.store.chip, f, frame)
    ensures var r := ChipSelect(b, true, io);
            && Ready(r) && Contents(r) == F.After(f, frame) && r.ram == b.ram
            && r.store == W.Release(b.store, io) && W.Kept(b.store, io, r.store)
  {
    F.FrameContents(b.store.chip, f, frame);
    W.StepKeepsSound(b.store, W.Raised(io));
    W.ReleaseKeeps(b.store, io);
  }

  /** Clocked bytes lose nothing: what a later deselect keeps it keeps of the state before. */
  lemma {:induction false} XferAllKeeps(s: W.Store, bs: seq<Byte>)
    requires W.Agreement(s)
    ensures W.Agreement(s.(chip := N.XferAll(s.chip, bs)))
  {
    if bs != [] {
      XferAllKeeps(s, bs[..|bs| - 1]);
      W.StepKeepsAgreement(s.(chip := N.XferAll(s.chip, bs[..|bs| - 1])), W.Clocked(bs[|bs| - 1]));
    }
  }

  /** A frame kept: select, bytes, deselect. */
  lemma FrameKeeps(s: W.Store, bs: seq<Byte>, io: W.Io, t: W.Store)
    requires W.Sound(s) && W.Kept(s.(chip := N.XferAll(N.Select(s.chip), bs)), io, t)
    ensures W.Kept(s, io, t)
  {
    if W.Agreement(s) {
      W.StepKeepsAgreement(s, W.Lowered);
      XferAllKeeps(s.(chip := N.Select(s.chip)), bs);
    }
  }

  lemma CommandFrameEffect(b: Board, head: seq<Byte>, io: W.Io)
    requires Ready(b) && |head| < WORD32
    ensures var r := CommandFrame(b, head, io);
            Ready(r) && Contents(r) == F.After(Contents(b), head) && r.ram == b.ram
            && W.Kept(b.store, io, r.store)
  {
    SelectOpens(b, io);
    var s := ChipSelect(b, false, io);
    SendAllEffect(s, head);
    R.XferAllRefines(s.store.chip, Contents(b), [], head);
    assert [] + head == head;
    DeselectCloses(SendAll(s, head), Contents(b), head, io);
    FrameKeeps(b.store, head, io, CommandFrame(b, head, io).store);
  }

  lemma TransferKeeps(s: W.Store, head: seq<Byte>, body: seq<Byte>, io: W.Io, t: W.Store)
    requires W.Sound(s) && N.XferAll(N.Select(s.chip), head).Valid()
    requires W.Kept(s.(chip := N.XferAll(N.XferAll(N.Select(s.chip), head), body)), io, t)
    ensures W.Kept(s, io, t)
  {
    if W.Agreement(s) {
      W.StepKeepsAgreement(s, W.Lowered);
      XferAllKeeps(s.(chip := N.Select(s.chip)), head);
      XferAllKeeps(s.(chip := N.XferAll(N.Select(s.chip), head)), body);
    }
  }

  // ------------------------------------------------ a polled read

  /** So far bs has been clocked in the frame opened on s. */
  ghost predicate InPoll(s: W.Store, bs: seq<Byte>, b: Board, ram: seq<Byte>)
    requires W.Sound(s)
  {
    && b.store == s.(chip := N.XferAll(N.Select(s.chip), bs)) && b.Valid() && NoneArmed(b.ch) && b.ram == ram
  }

  lemma PollStarts(b: Board, head: seq<Byte>, io: W.Io)
    requires Ready(b)
    ensures InPoll(b.store, head, SendAll(ChipSelect(b, false, io), head), b.ram)
    ensures var c := N.Select(b.store.chip);
            c.Valid() && F.InFrame(c, F.Flash(c.data, c.wren), []) && c.data == b.store.chip.data
  {
    SelectOpens(b, io);
    SendAllEffect(ChipSelect(b, false, io), head);
  }

  lemma PollOne(s: W.Store, bs: seq<Byte>, b: Board, ram: seq<Byte>, out: Byte, r: Board)
    requires W.Sound(s) && InPoll(s, bs, b, ram)
    requires r == b.(store := b.store.(chip := N.Xfer(b.store.chip, out).0), rx := r.rx, sr := r.sr)
    ensures InPoll(s, bs + [out], r, ram)
  {
    assert (bs + [out])[..|bs|] == bs;
    W.XferKeepsSound(b.store, out);
  }

  lemma PollHead(base: nat, bs: seq<Byte>)
    requires base < N.SIZE && bs == [0x03] + AddressBytes(base)
    ensures |bs| == 4 && bs[0] == N.READ && F.BigEndian(bs[1..4]) == base
  {
    AddressOf(base);
    assert bs[1..4] == AddressBytes(base);
  }

  lemma PollEnds(b: Board, bs: seq<Byte>, c: Board, ram: seq<Byte>, io: W.Io)
    requires Ready(b) && InPoll(b.store, bs, c, ram) && bs != [] && bs[0] == N.READ && |bs| < WORD32
    ensures var r := ChipSelect(c, true, io);
            Ready(r) && Contents(r) == Contents(b) && r.ram == ram && W.Kept(b.store, io, r.store)
  {
    var s := N.Select(b.store.chip);
    R.XferAllRefines(s, Contents(b), [], bs);
    assert [] + bs == bs && bs == [bs[0]] + bs[1..];
    DeselectCloses(c, Contents(b), bs, io);
    FrameKeeps(b.store, bs, io, ChipSelect(c, true, io).store);
  }

  /** A frame whose head is sent byte by byte and whose body is moved by DMA. */
  lemma TransferFrameEffect(b: Board, head: seq<Byte>, tx: Port, rx: Port, n: nat, io: W.Io)
    requires Ready(b) && tx.On? && rx.On? && n != 0 && |head| + n < WORD32
    ensures var c := N.XferAll(N.Select(b.store.chip), head);
            var r := TransferFrame(b, head, tx, rx, n, io);
            && F.InFrame(c, Contents(b), head)
            && Ready(r) && r.ram == Clocked(c, b.ram, tx, rx, n).1 && Finished(b, r)
            && Contents(r) == F.After(Contents(b), head + Sent(c, b.ram, tx, rx, n))
            && W.Kept(b.store, io, r.store)
  {
    SelectOpens(b, io);
    var s := ChipSelect(b, false, io);
    SendAllEffect(s, head);
    var h := SendAll(s, head);
    var c := h.store.chip;
    R.XferAllRefines(s.store.chip, Contents(b), [], head);
    assert [] + head == head;
    TransferEffect(h, tx, rx, n);
    TransferRaises(h, tx, rx, n);
    ClockedSends(c, h.ram, tx, rx, n);
    R.XferAllRefines(c, Contents(b), head, Sent(c, h.ram, tx, rx, n));
    DeselectCloses(Transfer(h, tx, rx, n), Contents(b), head + Sent(c, h.ram, tx, rx, n), io);
    TransferKeeps(b.store, head, Sent(c, h.ram, tx, rx, n), io, TransferFrame(b, head, tx, rx, n, io).store);
  }

  // ------------------------------------------------ the whole sequence

  function AddressBytes(a: nat): (r: seq<Byte>)
    requires a < N.SIZE
    ensures |r| == 3
  {
    [a / 0x1_0000, a / 0x100 % 0x100, a % 0x100]
  }

  lemma AddressOf(a: nat)
    requires a < N.SIZE
    ensures F.BigEndian(AddressBytes(a)) == a
  {
    F.AddressBytes(AddressBytes(a));
  }

  lemma ReadFrame(f: F.Flash, head: seq<Byte>, more: seq<Byte>)
    requires f.Valid() && head != [] && head[0] == N.READ
    ensures F.After(f, head + more) == f
  {
  }

  /** The frame that reads a sector into the cache. */
  lemma ReadSectorEffect(b: Board, base: nat, cache: nat, dummy: nat, io: W.Io)
    requires Ready(b) && InSram(cache, N.SECTOR)
    requires base + N.SECTOR <= N.SIZE
    ensures var r := TransferFrame(b, [0x03] + AddressBytes(base), On(dummy, false), On(cache, true), N.SECTOR, io);
            && Ready(r) && Contents(r) == Contents(b)
            && r.ram == Replaced(b.ram, cache, b.store.chip.data[base..base + N.SECTOR])
            && W.Kept(b.store, io, r.store)
  {
    var args := AddressBytes(base);
    var head := [0x03] + args;
    var tx, rx := On(dummy, false), On(cache, true);
    var f := Contents(b);
    TransferFrameEffect(b, head, tx, rx, N.SECTOR, io);
    var c := N.XferAll(N.Select(b.store.chip), head);
    ReadFrame(f, head, Sent(c, b.ram, tx, rx, N.SECTOR));
    assert F.InCommand(c, f, N.READ, args) by {
      assert head[1..] == args;
    }
    AddressOf(base);
    ReadTransfer(c, f, args, b.ram, tx, cache, N.SECTOR);
    StreamInside(f.data, base, N.SECTOR);
  }

  lemma StreamInside(data: seq<Byte>, a: nat, k: nat)
    requires |data| == N.SIZE && a + k <= N.SIZE
    ensures Stream(data, a, k) == data[a..a + k]
  {
  }

  /** was with the page at a anded with n bytes of memory from src. */
  ghost predicate PageWritten(was: seq<Byte>, new_: seq<Byte>, a: nat, ram: seq<Byte>, src: nat)
    requires |was| == |new_| == N.SIZE && |ram| == SRAM_SIZE && InSram(src, N.PAGE)
  {
    forall i :: 0 <= i < N.SIZE ==>
      new_[i] == if a <= i < a + N.PAGE then And(was[i], ram[src - SRAM_BASE + i - a]) else was[i]
  }

  lemma ProgramFrame(f: F.Flash, a: nat, ram: seq<Byte>, src: nat)
    requires f.Valid() && f.wel && a % N.PAGE == 0 && a < N.SIZE && |ram| == SRAM_SIZE && InSram(src, N.PAGE)
    ensures var r := F.After(f, [0x02] + AddressBytes(a) + Slice(ram, src, N.PAGE));
            r.wel && PageWritten(f.data, r.data, a, ram, src)
  {
    var burst := Slice(ram, src, N.PAGE);
    var frame := [0x02] + AddressBytes(a) + burst;
    AddressOf(a);
    assert frame[1..][..3] == AddressBytes(a) && frame[1..][3..] == burst;
    assert F.After(f, frame).data == F.Programmed(f.data, a, burst);
    forall i | 0 <= i < N.SIZE
      ensures F.Programmed(f.data, a, burst)[i] ==
              if a <= i < a + N.PAGE then And(f.data[i], ram[src - SRAM_BASE + i - a]) else f.data[i]
    {
      R.PageProgrammed(f.data, a, burst, i);
    }
  }

  lemma WriteEnables(f: F.Flash)
    requires f.Valid()
    ensures F.After(f, [0x06]) == f.(wel := true)
  {
    assert [0x06][1..] == [];
  }

  /** The frame that programs a page, write enable being set: the page holds its old bytes
      anded with the buffer, and nothing else changes. */
  lemma ProgramPageEffect(b: Board, a: nat, src: nat, dummy: nat, io: W.Io)
    requires Ready(b) && b.store.chip.wren
    requires a % N.PAGE == 0 && a < N.SIZE && InSram(src, N.PAGE) && !(src <= dummy < src + N.PAGE)
    ensures var r := TransferFrame(b, [0x02] + AddressBytes(a), On(src, true), On(dummy, false), N.PAGE, io);
            && Ready(r) && W.Kept(b.store, io, r.store)
            && PageWritten(b.store.chip.data, r.store.chip.data, a, b.ram, src)
            && SameExcept(b.ram, r.ram, dummy)
  {
    var head := [0x02] + AddressBytes(a);
    var tx, rx := On(src, true), On(dummy, false);
    TransferFrameEffect(b, head, tx, rx, N.PAGE, io);
    var c := N.XferAll(N.Select(b.store.chip), head);
    WriteTransfer(c, b.ram, src, dummy, N.PAGE);
    ProgramFrame(Contents(b), a, b.ram, src);
    forall i | 0 <= i < SRAM_SIZE && i + SRAM_BASE != dummy
      ensures Clocked(c, b.ram, tx, rx, N.PAGE).1[i] == b.ram[i]
    {
      DummyReceive(c, b.ram, tx, dummy, N.PAGE, i);
    }
  }

  ghost predicate SameExcept(ram0: seq<Byte>, ram: seq<Byte>, dummy: nat)
    requires |ram0| == |ram| == SRAM_SIZE
  {
    forall i :: 0 <= i < SRAM_SIZE && i + SRAM_BASE != dummy ==> ram[i] == ram0[i]
  }

  /** base .. base + n of new_ comes from memory at src, the rest from was. */
  ghost predicate Copied(was: seq<Byte>, new_: seq<Byte>, base: nat, n: nat, ram: seq<Byte>, src: nat)
    requires |was| == |new_| == N.SIZE && |ram| == SRAM_SIZE && InSram(src, n)
  {
    forall i :: 0 <= i < N.SIZE ==>
      new_[i] == if base <= i < base + n then ram[src - SRAM_BASE + i - base] else was[i]
  }

  lemma OneMorePage(start: seq<Byte>, before: seq<Byte>, after: seq<Byte>, base: nat,
                    ram0: seq<Byte>, ram: seq<Byte>, cache: nat, dummy: nat, k: nat)
    requires |start| == |before| == |after| == N.SIZE && |ram0| == |ram| == SRAM_SIZE && k < 16
    requires base + N.SECTOR <= N.SIZE && InSram(cache, N.SECTOR) && !(cache <= dummy < cache + N.SECTOR)
    requires forall i :: base <= i < base + N.SECTOR ==> start[i] == 0xff
    requires SameExcept(ram0, ram, dummy)
    requires Copied(start, before, base, k * N.PAGE, ram0, cache)
    requires PageWritten(before, after, base + k * N.PAGE, ram, cache + k * N.PAGE)
    ensures Copied(start, after, base, (k + 1) * N.PAGE, ram0, cache)
  {
    forall i | 0 <= i < N.SIZE
      ensures after[i] == if base <= i < base + (k + 1) * N.PAGE then ram0[cache - SRAM_BASE + i - base] else start[i]
    {
      if base + k * N.PAGE <= i < base + (k + 1) * N.PAGE {
        AndErased(ram0[cache - SRAM_BASE + i - base]);
      }
    }
  }

  ghost predicate ErasedAt(was: seq<Byte>, new_: seq<Byte>, base: nat)
    requires |was| == |new_| == N.SIZE
  {
    forall i :: 0 <= i < N.SIZE ==> new_[i] == if base <= i < base + N.SECTOR then 0xff else was[i]
  }

  lemma EraseFrame(f: F.Flash, base: nat)
    requires f.Valid() && f.wel && base % N.SECTOR == 0 && base < N.SIZE
    ensures var r := F.After(f, [0x20] + AddressBytes(base));
            r.wel && |r.data| == N.SIZE && ErasedAt(f.data, r.data, base)
  {
    var frame := [0x20] + AddressBytes(base);
    AddressOf(base);
    assert frame[1..] == AddressBytes(base) && frame[1..][..3] == AddressBytes(base);
    forall i | 0 <= i < N.SIZE
      ensures i / N.SECTOR == base / N.SECTOR <==> base <= i < base + N.SECTOR
    {
    }
  }

  /** The firmware overwrites part of the cached sector. */
  function Patched(ram: seq<Byte>, cache: nat, at: nat, patch: seq<Byte>): (r: seq<Byte>)
    requires |ram| == SRAM_SIZE && InSram(cache, N.SECTOR) && at + |patch| <= N.SECTOR
    ensures |r| == SRAM_SIZE
  {
    Replaced(ram, cache + at, patch)
  }

  /** Read, patch, erase, program: sixteen pages copied out of the patched cache make the sector
      its old contents with the patch in place. */
  lemma CacheWritten(was: seq<Byte>, erased: seq<Byte>, new_: seq<Byte>, ram: seq<Byte>,
                     base: nat, cache: nat, at: nat, patch: seq<Byte>)
    requires |was| == |erased| == |new_| == N.SIZE && |ram| == SRAM_SIZE
    requires InSram(cache, N.SECTOR) && at + |patch| <= N.SECTOR && base + N.SECTOR <= N.SIZE
    requires ErasedAt(was, erased, base)
    requires var m := Patched(Replaced(ram, cache, was[base..base + N.SECTOR]), cache, at, patch);
             Copied(erased, new_, base, N.SECTOR, m, cache)
    ensures new_ == was[..base + at] + patch + was[base + at + |patch|..]
  {
    CachePatched(ram, cache, was, base, at, patch);
    var want := was[..base + at] + patch + was[base + at + |patch|..];
    forall i | 0 <= i < N.SIZE
      ensures new_[i] == want[i]
    {
    }
  }

  /** The cache after the read and the patch, byte by byte. */
  lemma CachePatched(ram: seq<Byte>, cache: nat, data: seq<Byte>, base: nat, at: nat, patch: seq<Byte>)
    requires |ram| == SRAM_SIZE && InSram(cache, N.SECTOR) && at + |patch| <= N.SECTOR
    requires |data| == N.SIZE && base + N.SECTOR <= N.SIZE
    ensures var m := Patched(Replaced(ram, cache, data[base..base + N.SECTOR]), cache, at, patch);
            forall i :: base <= i < base + N.SECTOR ==>
              m[cache - SRAM_BASE + i - base] ==
              if base + at <= i < base + at + |patch| then patch[i - base - at] else data[i]
  {
  }
}
