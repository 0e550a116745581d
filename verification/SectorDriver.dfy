/** The firmware's flash driver as register writes on the devices. */
module SectorDriver {
  import opened Bits
  import opened SpiDma
  import opened SectorRewrite
  import opened Transfers
  import D = Dma
  import F = NorFrames
  import N = Nor
  import R = NorRuns
  import W = WriteBack

  method SendBytes(soc: Soc, bs: seq<Byte>)
    requires soc.Valid()
    modifies soc, soc.flash, soc.flash.data, soc.sram, soc.ch
    ensures soc.Valid() && soc.Board() == SendAll(old(soc.Board()), bs)
  {
    assert bs[..0] == [];
    for i := 0 to |bs|
      invariant soc.Valid() && soc.Board() == SendAll(old(soc.Board()), bs[..i])
    {
      assert bs[..i + 1][..i] == bs[..i];
      soc.SpiWrite(D.DR, bs[i]);
    }
    assert bs[..|bs|] == bs;
  }

  method ArmChannel(soc: Soc, i: nat, count: nat, addr: nat, ccr: nat)
    requires soc.Valid()
    modifies soc.ch
    ensures soc.Valid() && soc.Board() == Arm(old(soc.Board()), i, count, addr, ccr)
  {
    soc.DmaWrite(i, D.CPAR, D.SPI2_BASE);
    soc.DmaWrite(i, D.CMAR, addr);
    soc.DmaWrite(i, D.CNDTR, count);
    soc.DmaWrite(i, D.CCR, ccr);
  }

  method MoveByDma(soc: Soc, tx: D.Port, rx: D.Port, n: nat)
    requires soc.Valid() && tx.On? && rx.On?
    modifies soc, soc.flash, soc.flash.data, soc.sram, soc.ch
    ensures soc.Valid() && soc.Board() == Transfer(old(soc.Board()), tx, rx, n)
  {
    ArmChannel(soc, 3, n, rx.addr, CcrOf(rx, false));
    ArmChannel(soc, 4, n, tx.addr, CcrOf(tx, true));
    soc.SpiWrite(D.CR2, 0x01);
    soc.SpiWrite(D.CR1, 0x40);
    soc.SpiWrite(D.CR2, 0x03);
    soc.SpiWrite(D.CR2, 0x00);
  }

  /** A chip-select frame of bytes sent one at a time. */
  method SendCommand(soc: Soc, bs: seq<Byte>, io: W.Io)
    requires soc.Valid() && Ready(soc.Board()) && |bs| < WORD32
    modifies soc, soc.flash, soc.flash.data, soc.sram, soc.ch
    ensures soc.Valid() && Ready(soc.Board()) && soc.sram[..] == old(soc.sram[..])
    ensures Contents(soc.Board()) == F.After(old(Contents(soc.Board())), bs)
    ensures W.Kept(old(soc.flash.Store()), io, soc.flash.Store())
  {
    CommandFrameEffect(soc.Board(), bs, io);
    soc.SetCs(false, io);
    SendBytes(soc, bs);
    soc.SetCs(true, io);
  }

  /** A chip-select frame whose head is sent byte by byte and whose body is moved by DMA. At its end both channels
      have their transfer-complete flags up, and the interrupt line that the firmware waits for is up. */
  method SendTransfer(soc: Soc, head: seq<Byte>, tx: D.Port, rx: D.Port, n: nat, io: W.Io)
    requires soc.Valid() && Ready(soc.Board()) && tx.On? && rx.On? && n != 0 && |head| + n < WORD32
    modifies soc, soc.flash, soc.flash.data, soc.sram, soc.ch
    ensures soc.Valid() && Ready(soc.Board()) && soc.Board() == TransferFrame(old(soc.Board()), head, tx, rx, n, io)
    ensures var b := old(soc.Board());
            var c := N.XferAll(N.Select(b.store.chip), head);
            && soc.sram[..] == D.Clocked(c, b.ram, tx, rx, n).1
            && Contents(soc.Board()) == F.After(Contents(b), head + Sent(c, b.ram, tx, rx, n))
    ensures soc.irqHigh && forall k: nat ::
              Bit(soc.isr, k) <==> Bit(old(soc.isr), k) || k == 12 || k == 13 || k == 16 || k == 17
    ensures soc.irqLow <==> exists i :: 0 <= i < 3 && Bit(old(soc.ch[i].ccr), 1) && Bit(old(soc.isr), 4 * i + 1)
    ensures W.Kept(old(soc.flash.Store()), io, soc.flash.Store())
  {
    TransferFrameEffect(soc.Board(), head, tx, rx, n, io);
    soc.SetCs(false, io);
    SendBytes(soc, head);
    MoveByDma(soc, tx, rx, n);
    soc.SetCs(true, io);
  }

  /** A byte out and a byte in, by way of the data register. */
  method Exchange(soc: Soc, out: Byte) returns (reply: Byte)
    requires soc.Valid()
    modifies soc, soc.flash, soc.flash.data, soc.sram, soc.ch
    ensures soc.Valid() && reply == N.Xfer(old(soc.Board()).store.chip, out).1
    ensures var b := old(soc.Board());
            soc.Board() == b.(store := b.store.(chip := N.Xfer(b.store.chip, out).0), rx := soc.rx, sr := soc.sr)
  {
    ReplyWaits(soc.Board(), out, 0);
    assert out % 256 == out;
    soc.SpiWrite(D.DR, out);
    assert Bit(soc.sr, 0);
    reply := soc.ReadData();
  }

  /** The chip after bs has been clocked in a frame opened on it, read from base on. */
  ghost predicate Reading(b: D.Board, base: nat, bs: seq<Byte>)
  {
    var c := N.Select(b.store.chip);
    && W.Sound(b.store) && c.Valid() && F.InFrame(c, F.Flash(c.data, c.wren), []) && c.data == b.store.chip.data
    && 4 <= |bs| < WORD32 && bs[0] == N.READ && F.BigEndian(bs[1..4]) == base
  }

  method PollByte(soc: Soc, ghost b: D.Board, base: nat, ghost bs: seq<Byte>) returns (reply: Byte)
    requires soc.Valid() && Reading(b, base, bs) && InPoll(b.store, bs, soc.Board(), b.ram)
    modifies soc, soc.flash, soc.flash.data, soc.sram, soc.ch
    ensures soc.Valid() && InPoll(b.store, bs + [0xff], soc.Board(), b.ram)
    ensures reply == b.store.chip.data[(base + |bs| - 4) % N.SIZE]
  {
    R.ReplyInOrder(N.Select(b.store.chip), bs, 0xff);
    reply := Exchange(soc, 0xff);
    PollOne(b.store, bs, old(soc.Board()), b.ram, 0xff, soc.Board());
  }

  method PollBytes(soc: Soc, ghost b: D.Board, base: nat, ghost head: seq<Byte>, n: nat)
    returns (data: seq<Byte>, ghost bs: seq<Byte>)
    requires soc.Valid() && Reading(b, base, head) && |head| == 4 && InPoll(b.store, head, soc.Board(), b.ram)
    requires n + 4 < WORD32
    modifies soc, soc.flash, soc.flash.data, soc.sram, soc.ch
    ensures soc.Valid() && Reading(b, base, bs) && InPoll(b.store, bs, soc.Board(), b.ram)
    ensures data == Stream(b.store.chip.data, base, n)
  {
    data, bs := [], head;
    for i := 0 to n
      invariant soc.Valid() && Reading(b, base, bs) && |bs| == i + 4 && InPoll(b.store, bs, soc.Board(), b.ram)
      invariant data == Stream(b.store.chip.data, base, i)
    {
      assert (bs + [0xff])[1..4] == bs[1..4];
      var reply := PollByte(soc, b, base, bs);
      bs, data := bs + [0xff], data + [reply];
    }
  }

  /** A polled read: a frame of one exchange a byte. It reads what the flash holds from there on, around the end of
      the array, and changes nothing. */
  method PolledRead(soc: Soc, base: nat, n: nat, io: W.Io) returns (data: seq<Byte>)
    requires soc.Valid() && Ready(soc.Board()) && base < N.SIZE && n + 4 < WORD32
    modifies soc, soc.flash, soc.flash.data, soc.sram, soc.ch
    ensures data == Stream(old(soc.flash.data[..]), base, n)
    ensures soc.Valid() && Ready(soc.Board()) && soc.flash.data[..] == old(soc.flash.data[..])
    ensures soc.sram[..] == old(soc.sram[..]) && W.Kept(old(soc.flash.Store()), io, soc.flash.Store())
  {
    ghost var b, head := soc.Board(), [0x03] + AddressBytes(base);
    PollStarts(b, head, io);
    soc.SetCs(false, io);
    SendBytes(soc, [0x03] + AddressBytes(base));
    ghost var bs;
    PollHead(base, head);
    data, bs := PollBytes(soc, b, base, head, n);
    PollEnds(b, bs, soc.Board(), b.ram, io);
    soc.SetCs(true, io);
  }

  method ReadSector(soc: Soc, base: nat, cache: nat, dummy: nat, io: W.Io)
    requires soc.Valid() && Ready(soc.Board())
    requires InSram(cache, N.SECTOR) && base + N.SECTOR <= N.SIZE
    modifies soc, soc.flash, soc.flash.data, soc.sram, soc.ch
    ensures soc.Valid() && Ready(soc.Board()) && soc.flash.data[..] == old(soc.flash.data[..])
    ensures soc.sram[..] == Replaced(old(soc.sram[..]), cache, old(soc.flash.data[base..base + N.SECTOR]))
    ensures W.Kept(old(soc.flash.Store()), io, soc.flash.Store())
  {
    ReadSectorEffect(soc.Board(), base, cache, dummy, io);
    assert soc.flash.data[..][base..base + N.SECTOR] == soc.flash.data[base..base + N.SECTOR];
    SendTransfer(soc, [0x03] + AddressBytes(base), D.On(dummy, false), D.On(cache, true), N.SECTOR, io);
  }

  method EnableWrites(soc: Soc, io: W.Io)
    requires soc.Valid() && Ready(soc.Board())
    modifies soc, soc.flash, soc.flash.data, soc.sram, soc.ch
    ensures soc.Valid() && Ready(soc.Board()) && soc.flash.writeEnabled
    ensures soc.sram[..] == old(soc.sram[..]) && soc.flash.data[..] == old(soc.flash.data[..])
    ensures W.Kept(old(soc.flash.Store()), io, soc.flash.Store())
  {
    WriteEnables(Contents(soc.Board()));
    SendCommand(soc, [0x06], io);
  }

  method EraseSector(soc: Soc, base: nat, io: W.Io)
    requires soc.Valid() && Ready(soc.Board()) && soc.flash.writeEnabled
    requires base % N.SECTOR == 0 && base < N.SIZE
    modifies soc, soc.flash, soc.flash.data, soc.sram, soc.ch
    ensures soc.Valid() && Ready(soc.Board()) && soc.sram[..] == old(soc.sram[..])
    ensures ErasedAt(old(soc.flash.data[..]), soc.flash.data[..], base)
    ensures W.Kept(old(soc.flash.Store()), io, soc.flash.Store())
  {
    EraseFrame(Contents(soc.Board()), base);
    SendCommand(soc, [0x20] + AddressBytes(base), io);
  }

  method ProgramPage(soc: Soc, a: nat, src: nat, dummy: nat, io: W.Io)
    requires soc.Valid() && Ready(soc.Board()) && soc.flash.writeEnabled
    requires a % N.PAGE == 0 && a < N.SIZE && InSram(src, N.PAGE) && !(src <= dummy < src + N.PAGE)
    modifies soc, soc.flash, soc.flash.data, soc.sram, soc.ch
    ensures soc.Valid() && Ready(soc.Board()) && SameExcept(old(soc.sram[..]), soc.sram[..], dummy)
    ensures PageWritten(old(soc.flash.data[..]), soc.flash.data[..], a, old(soc.sram[..]), src)
    ensures W.Kept(old(soc.flash.Store()), io, soc.flash.Store())
  {
    ProgramPageEffect(soc.Board(), a, src, dummy, io);
    SendTransfer(soc, [0x02] + AddressBytes(a), D.On(src, true), D.On(dummy, false), N.PAGE, io);
  }

  /** Two frames kept, one after the other. */
  ghost predicate KeptBoth(s: W.Store, io1: W.Io, io2: W.Io, t: W.Store)
  {
    && (W.Agreement(s) && W.CloseChecked(io1) && W.CloseChecked(io2) ==> W.Agreement(t))
    && (s.hasPath && W.Succeeds(io2) ==> !t.chip.dirty)
  }

  /** Any number of frames kept, the last of them answered by last. */
  ghost predicate KeptAll(s: W.Store, ios: nat -> W.Io, last: W.Io, t: W.Store)
  {
    && (W.Agreement(s) && (forall j :: W.CloseChecked(ios(j))) ==> W.Agreement(t))
    && (s.hasPath && W.Succeeds(last) ==> !t.chip.dirty)
  }

  /** Page k of the sector, from page k of the cache. */
  method EnableAndProgram(soc: Soc, base: nat, cache: nat, dummy: nat, k: nat, io1: W.Io, io2: W.Io)
    requires soc.Valid() && Ready(soc.Board()) && k < 16
    requires base % N.SECTOR == 0 && base < N.SIZE
    requires InSram(cache, N.SECTOR) && !(cache <= dummy < cache + N.SECTOR)
    modifies soc, soc.flash, soc.flash.data, soc.sram, soc.ch
    ensures soc.Valid() && Ready(soc.Board()) && SameExcept(old(soc.sram[..]), soc.sram[..], dummy)
    ensures PageWritten(old(soc.flash.data[..]), soc.flash.data[..], base + k * N.PAGE,
                        old(soc.sram[..]), cache + k * N.PAGE)
    ensures KeptBoth(old(soc.flash.Store()), io1, io2, soc.flash.Store())
  {
    EnableWrites(soc, io1);
    ProgramPage(soc, base + k * N.PAGE, cache + k * N.PAGE, dummy, io2);
  }

  /** Sixteen page programs, a write enable before each. */
  method ProgramSector(soc: Soc, base: nat, cache: nat, dummy: nat, ios: nat -> W.Io)
    requires soc.Valid() && Ready(soc.Board())
    requires base % N.SECTOR == 0 && base < N.SIZE
    requires InSram(cache, N.SECTOR) && !(cache <= dummy < cache + N.SECTOR)
    requires forall i :: base <= i < base + N.SECTOR ==> soc.flash.data[..][i] == 0xff
    modifies soc, soc.flash, soc.flash.data, soc.sram, soc.ch
    ensures soc.Valid() && Ready(soc.Board())
    ensures Copied(old(soc.flash.data[..]), soc.flash.data[..], base, N.SECTOR, old(soc.sram[..]), cache)
    ensures KeptAll(old(soc.flash.Store()), ios, ios(34), soc.flash.Store())
  {
    ghost var start, ram0 := soc.flash.data[..], soc.sram[..];
    for k := 0 to 16
      invariant soc.Valid() && Ready(soc.Board())
      invariant SameExcept(ram0, soc.sram[..], dummy)
      invariant Copied(start, soc.flash.data[..], base, k * N.PAGE, ram0, cache)
      invariant old(W.Agreement(soc.flash.Store())) && (forall j :: W.CloseChecked(ios(j))) ==>
                  W.Agreement(soc.flash.Store())
      invariant k == 16 && soc.flash.hasPath && W.Succeeds(ios(34)) ==> !soc.flash.dirty
    {
      ghost var before, ram := soc.flash.data[..], soc.sram[..];
      EnableAndProgram(soc, base, cache, dummy, k, ios(2 * k + 3), ios(2 * k + 4));
      OneMorePage(start, before, soc.flash.data[..], base, ram0, ram, cache, dummy, k);
    }
  }

  method PatchCache(soc: Soc, cache: nat, at: nat, patch: seq<Byte>)
    requires soc.Valid() && at + |patch| <= N.SECTOR && InSram(cache, N.SECTOR)
    modifies soc, soc.flash, soc.flash.data, soc.sram, soc.ch
    ensures soc.Valid() && soc.Board() == old(soc.Board()).(ram := soc.sram[..])
    ensures soc.sram[..] == Patched(old(soc.sram[..]), cache, at, patch)
  {
    ghost var board, ram := soc.Board(), soc.sram[..];
    for i := 0 to |patch|
      invariant soc.Valid() && soc.Board() == board.(ram := soc.sram[..])
      invariant soc.sram[..] == Patched(ram, cache, at, patch[..i])
    {
      soc.WriteMemory(cache + at + i, patch[i]);
    }
    assert patch[..|patch|] == patch;
  }

  /** Read the sector into the cache and patch it there. */
  method LoadPatched(soc: Soc, base: nat, cache: nat, dummy: nat, at: nat, patch: seq<Byte>, io: W.Io)
    requires soc.Valid() && Ready(soc.Board())
    requires base % N.SECTOR == 0 && base < N.SIZE && at + |patch| <= N.SECTOR && InSram(cache, N.SECTOR)
    modifies soc, soc.flash, soc.flash.data, soc.sram, soc.ch
    ensures soc.Valid() && Ready(soc.Board()) && soc.flash.data[..] == old(soc.flash.data[..])
    ensures W.Kept(old(soc.flash.Store()), io, soc.flash.Store())
    ensures soc.sram[..] ==
            Patched(Replaced(old(soc.sram[..]), cache, old(soc.flash.data[..])[base..base + N.SECTOR]), cache, at,
                    patch)
  {
    ReadSector(soc, base, cache, dummy, io);
    assert soc.flash.data[..][base..base + N.SECTOR] == old(soc.flash.data[base..base + N.SECTOR]);
    PatchCache(soc, cache, at, patch);
  }

  /** Read the sector, patch the cache, erase, program it back. From any state between frames, whatever the
      flash, the memory and the spare channels hold, and whatever the host answers: the flash ends as it began
      but for the patch. If flash and file agreed and no close of a temporary file fails they still agree; and
      if the host's calls at the last deselect succeed the file then equals the flash. */
  method RewriteSector(soc: Soc, base: nat, cache: nat, dummy: nat, at: nat, patch: seq<Byte>, ios: nat -> W.Io)
    requires soc.Valid() && Ready(soc.Board())
    requires base % N.SECTOR == 0 && base < N.SIZE && at + |patch| <= N.SECTOR
    requires InSram(cache, N.SECTOR) && !(cache <= dummy < cache + N.SECTOR)
    modifies soc, soc.flash, soc.flash.data, soc.sram, soc.ch
    ensures soc.Valid() && Ready(soc.Board())
    ensures soc.flash.data[..] ==
            old(soc.flash.data[..base + at]) + patch + old(soc.flash.data[base + at + |patch|..])
    ensures var agreed := old(W.Agreement(soc.flash.Store())) && forall j :: W.CloseChecked(ios(j));
            && (agreed ==> W.Agreement(soc.flash.Store()))
            && (soc.flash.hasPath && W.Succeeds(ios(34)) ==>
                  (W.Saved(soc.flash.Store()) <==> W.Intact(soc.flash.Store())))
  {
    ghost var was, ram := soc.flash.data[..], soc.sram[..];
    LoadPatched(soc, base, cache, dummy, at, patch, ios(0));
    EnableWrites(soc, ios(1));
    EraseSector(soc, base, ios(2));
    ghost var erased := soc.flash.data[..];
    ProgramSector(soc, base, cache, dummy, ios);
    if soc.flash.hasPath && W.Succeeds(ios(34)) {
      W.CleanIsSaved(soc.flash.Store());
    }
    CacheWritten(was, erased, soc.flash.data[..], ram, base, cache, at, patch);
  }
}
