/** The abstract NOR, a command per frame, and how Nor refines it. */
module NorFrames {
  import opened Bits
  import opened Nor

  datatype Flash = Flash(data: seq<Byte>, wel: bool)
  {
    ghost predicate Valid() { |data| == SIZE }
  }

  function BigEndian(bs: seq<Byte>): nat
  {
    if bs == [] then 0 else BigEndian(bs[..|bs| - 1]) * 256 + bs[|bs| - 1]
  }

  lemma AddressBytes(bs: seq<Byte>)
    requires |bs| <= 3
    ensures BigEndian(bs) < 0x100_0000
    ensures |bs| < 3 ==> BigEndian(bs) < 0x1_0000
    ensures |bs| == 3 ==> BigEndian(bs) == (bs[0] as nat * 256 + bs[1]) * 256 + bs[2]
  {
    if bs != [] {
      AddressBytes(bs[..|bs| - 1]);
    }
  }

  /** What one cell of a page holds after a burst: its old value anded with every byte of the
      burst whose position, counted around the page from the start address, is that cell. */
  function Cell(x: Byte, start: nat, burst: seq<Byte>, cell: nat): Byte
  {
    if burst == [] then x
    else
      var before := Cell(x, start, burst[..|burst| - 1], cell);
      if (start + |burst| - 1) % PAGE == cell then And(before, burst[|burst| - 1]) else before
  }

  function Programmed(data: seq<Byte>, start: nat, burst: seq<Byte>): (r: seq<Byte>)
    requires |data| == SIZE
    ensures |r| == SIZE
  {
    seq(SIZE, i requires 0 <= i < SIZE =>
      if i / PAGE == start % SIZE / PAGE then Cell(data[i], start, burst, i % PAGE) else data[i])
  }

  function Erased(data: seq<Byte>, address: nat): (r: seq<Byte>)
    requires |data| == SIZE
    ensures |r| == SIZE
  {
    seq(SIZE, i requires 0 <= i < SIZE => if i / SECTOR == address % SIZE / SECTOR then 0xff else data[i])
  }

  predicate Standalone(op: Byte) { op == NONE || op == WREN || op == WRDI }

  /** The effect of a command op that was given the bytes args in its frame. */
  function Done(f: Flash, op: Byte, args: seq<Byte>): (r: Flash)
    requires f.Valid()
    ensures r.Valid() && r.wel == f.wel
  {
    if op == PP && f.wel && |args| > 3 then
      f.(data := Programmed(f.data, BigEndian(args[..3]), args[3..]))
    else if op == SE && f.wel && |args| >= 3 then
      f.(data := Erased(f.data, BigEndian(args[..3])))
    else f
  }

  /** What command op answers to the byte that follows args. */
  function Answer(f: Flash, op: Byte, args: seq<Byte>): Byte
    requires f.Valid()
  {
    if op == READ && |args| >= 3 then f.data[(BigEndian(args[..3]) + |args| - 3) % SIZE]
    else if op == RDSR then if f.wel then 0x02 else 0x00
    else if op == JEDEC && |args| < 3 then [0x85, 0x60, 0x15][|args|]
    else 0xff
  }

  function Latch(f: Flash, op: Byte): (r: Flash)
  {
    if op == WREN then f.(wel := true) else if op == WRDI then f.(wel := false) else f
  }

  /** A whole frame: any number of one-byte commands, then at most one command with arguments. */
  function After(f: Flash, frame: seq<Byte>): (r: Flash)
    requires f.Valid()
    ensures r.Valid()
    decreases |frame|
  {
    if frame == [] then f
    else if Standalone(frame[0]) then After(Latch(f, frame[0]), frame[1..])
    else Done(f, frame[0], frame[1..])
  }

  /** What the abstract NOR answers to the byte that follows frame. */
  function Reply(f: Flash, frame: seq<Byte>): Byte
    requires f.Valid()
    decreases |frame|
  {
    if frame == [] then 0xff
    else if Standalone(frame[0]) then Reply(Latch(f, frame[0]), frame[1..])
    else Answer(f, frame[0], frame[1..])
  }

  // ------------------------------------------------ refinement of one frame

  /** The device's address register while command op is under way. */
  function AddressRegister(op: Byte, args: seq<Byte>): nat
  {
    if op != READ && op != PP && op != SE then 0
    else if |args| <= 3 then BigEndian(args)
    else
      var a := BigEndian(args[..3]);
      if op == READ then (a + |args| - 3) % WORD32
      else if op == PP then a / PAGE * PAGE + (a + |args| - 3) % PAGE
      else a
  }

  ghost predicate InCommand(c: Chip, f: Flash, op: Byte, args: seq<Byte>)
    requires f.Valid()
  {
    && c.Valid() && c.selected && !Standalone(op) && |args| < WORD32
    && c.cmd == op && c.phase == |args| && c.addr == AddressRegister(op, args)
    && c.wren == f.wel && c.data == Done(f, op, args).data
  }

  /** The device, having been clocked the bytes of frame since it was selected with contents f. */
  ghost predicate InFrame(c: Chip, f: Flash, frame: seq<Byte>)
    requires f.Valid()
    decreases |frame|
  {
    if frame == [] then
      c.Valid() && c.selected && c.cmd == NONE && c.data == f.data && c.wren == f.wel
    else if Standalone(frame[0]) then InFrame(c, Latch(f, frame[0]), frame[1..])
    else InCommand(c, f, frame[0], frame[1..])
  }

  /** Where a page address lands in the array: page number and place in the page. */
  lemma PageIndex(page: nat, place: nat)
    requires place < PAGE
    ensures (page * PAGE + place) % SIZE == page % (SIZE / PAGE) * PAGE + place
  {
    var q, r := page / (SIZE / PAGE), page % (SIZE / PAGE);
    assert page * PAGE + place == q * SIZE + r * PAGE + place;
  }

  lemma PageOf(a: nat)
    ensures a % SIZE / PAGE == a / PAGE % (SIZE / PAGE)
  {
    PageIndex(a / PAGE, a % PAGE);
  }

  lemma NextCell(a: nat, k: nat)
    ensures NextInPage(a / PAGE * PAGE + (a + k) % PAGE) == a / PAGE * PAGE + (a + k + 1) % PAGE
  {
    assert (a / PAGE * PAGE + (a + k) % PAGE) / PAGE == a / PAGE;
  }

  lemma ProgramOne(data: seq<Byte>, start: nat, burst: seq<Byte>, out: Byte)
    requires |data| == SIZE
    ensures var at := (start / PAGE * PAGE + (start + |burst|) % PAGE) % SIZE;
            var p := Programmed(data, start, burst);
            Programmed(data, start, burst + [out]) == p[at := And(p[at], out)]
  {
    var at := (start / PAGE * PAGE + (start + |burst|) % PAGE) % SIZE;
    var p := Programmed(data, start, burst);
    var q := Programmed(data, start, burst + [out]);
    assert (burst + [out])[..|burst|] == burst;
    PageOf(start);
    PageIndex(start / PAGE, (start + |burst|) % PAGE);
    forall i | 0 <= i < SIZE
      ensures q[i] == p[at := And(p[at], out)][i]
    {
      assert i == i / PAGE * PAGE + i % PAGE;
    }
  }

  lemma EraseOne(data: seq<Byte>, a: nat)
    requires |data| == SIZE
    ensures var at := a / SECTOR * SECTOR % SIZE;
            Filled(data, at, at + SECTOR, 0xff) == Erased(data, a)
  {
    var at := a / SECTOR * SECTOR % SIZE;
    SectorFits(a);
    assert at / SECTOR == a % SIZE / SECTOR;
    forall i | 0 <= i < SIZE
      ensures at <= i < at + SECTOR <==> i / SECTOR == a % SIZE / SECTOR
    {
    }
  }

  lemma AppendAddress(args: seq<Byte>, out: Byte)
    requires |args| < 3
    ensures BigEndian(args + [out]) == ShiftAddr(BigEndian(args), out)
  {
    AddressBytes(args);
    var more := args + [out];
    assert more[..|more| - 1] == args;
    assert BigEndian(more) == BigEndian(args) * 256 + out;
  }

  lemma SplitLast(args: seq<Byte>, out: Byte)
    ensures (args + [out])[..|args|] == args
    ensures |args| >= 3 ==> (args + [out])[..3] == args[..3] && (args + [out])[3..] == args[3..] + [out]
    ensures |args| == 3 ==> args[..3] == args
  {
  }

  lemma SplitArgs(args: seq<Byte>, out: Byte)
    ensures (args + [out])[..|args|] == args
    ensures |args| >= 3 ==> (args + [out])[..3] == args[..3] && (args + [out])[3..] == args[3..] + [out]
    ensures |args| == 3 ==> args[..3] == args
    ensures |args| < 3 ==> BigEndian(args + [out]) == ShiftAddr(BigEndian(args), out)
    ensures |args| >= 3 ==> BigEndian(args[..3]) < 0x100_0000
  {
    SplitLast(args, out);
    if |args| < 3 {
      AppendAddress(args, out);
    } else {
      AddressBytes(args[..3]);
    }
  }

  lemma Wrap32(a: nat)
    ensures a % WORD32 % SIZE == a % SIZE
    ensures (a % WORD32 + 1) % WORD32 == (a + 1) % WORD32
  {
    var q, r := a / WORD32, a % WORD32;
    assert a == q * 0x1_0000_0000 + r;
    WholeSizes(q * 2048, r);
    WholeWords(q, r + 1);
  }

  lemma WholeSizes(q: nat, r: nat)
    ensures (q * 0x20_0000 + r) % SIZE == r % SIZE
  {
  }

  lemma WholeWords(q: nat, r: nat)
    ensures (q * 0x1_0000_0000 + r) % WORD32 == r % WORD32
  {
  }

  lemma ReadAddress(c: Chip, f: Flash, args: seq<Byte>, out: Byte)
    requires f.Valid() && InCommand(c, f, READ, args) && |args| < 3
    ensures InCommand(Xfer(c, out).0, f, READ, args + [out])
    ensures Xfer(c, out).1 == Answer(f, READ, args)
  {
    SplitArgs(args, out);
    XferKeepsValid(c, out);
  }

  /** The address register moves on by one, and the reply comes from where it was. */
  lemma ReadAdvances(args: seq<Byte>, out: Byte)
    requires |args| >= 3
    ensures AddressRegister(READ, args + [out]) == (AddressRegister(READ, args) + 1) % WORD32
    ensures AddressRegister(READ, args) % SIZE == (BigEndian(args[..3]) + |args| - 3) % SIZE
  {
    SplitArgs(args, out);
    Wrap32(BigEndian(args[..3]) + |args| - 3);
    assert AddressRegister(READ, args) == (BigEndian(args[..3]) + |args| - 3) % WORD32;
  }

  lemma ReadData(c: Chip, f: Flash, args: seq<Byte>, out: Byte)
    requires f.Valid() && InCommand(c, f, READ, args) && 3 <= |args| && |args| + 1 < WORD32
    ensures InCommand(Xfer(c, out).0, f, READ, args + [out])
    ensures Xfer(c, out).1 == Answer(f, READ, args)
  {
    ReadAdvances(args, out);
    XferKeepsValid(c, out);
  }

  lemma ReadStep(c: Chip, f: Flash, args: seq<Byte>, out: Byte)
    requires f.Valid() && InCommand(c, f, READ, args) && |args| + 1 < WORD32
    ensures InCommand(Xfer(c, out).0, f, READ, args + [out])
    ensures Xfer(c, out).1 == Answer(f, READ, args)
  {
    if |args| < 3 {
      ReadAddress(c, f, args, out);
    } else {
      ReadData(c, f, args, out);
    }
  }

  lemma ProgramAddress(c: Chip, f: Flash, args: seq<Byte>, out: Byte)
    requires f.Valid() && InCommand(c, f, PP, args) && |args| < 3
    ensures InCommand(Xfer(c, out).0, f, PP, args + [out])
  {
    SplitArgs(args, out);
    XferKeepsValid(c, out);
  }

  /** The address register moves on within its page, from the cell the byte is for. */
  lemma ProgramAdvances(args: seq<Byte>, out: Byte)
    requires |args| >= 3
    ensures AddressRegister(PP, args) ==
            BigEndian(args[..3]) / PAGE * PAGE + (BigEndian(args[..3]) + |args| - 3) % PAGE
    ensures AddressRegister(PP, args + [out]) == NextInPage(AddressRegister(PP, args))
  {
    SplitArgs(args, out);
    var a := BigEndian(args[..3]);
    NextCell(a, |args| - 3);
    assert a == a / PAGE * PAGE + a % PAGE;
  }

  /** One more byte of a burst. */
  lemma DoneOneMore(f: Flash, args: seq<Byte>, out: Byte)
    requires f.Valid() && |args| >= 3
    ensures var at := AddressRegister(PP, args) % SIZE;
            var d := Done(f, PP, args).data;
            Done(f, PP, args + [out]).data == if f.wel then d[at := And(d[at], out)] else d
  {
    SplitArgs(args, out);
    ProgramAdvances(args, out);
    ProgramOne(f.data, BigEndian(args[..3]), args[3..], out);
    if |args| == 3 {
      assert args[3..] == [];
      assert Programmed(f.data, BigEndian(args), []) == f.data;
    }
  }

  lemma ProgramData(c: Chip, f: Flash, args: seq<Byte>, out: Byte)
    requires f.Valid() && InCommand(c, f, PP, args) && 3 <= |args| && |args| + 1 < WORD32
    ensures InCommand(Xfer(c, out).0, f, PP, args + [out])
  {
    ProgramAdvances(args, out);
    DoneOneMore(f, args, out);
    XferKeepsValid(c, out);
    XferPrograms(c, out);
  }

  /** What a data byte of a burst does to the device. */
  lemma XferPrograms(c: Chip, out: Byte)
    requires c.Valid() && c.selected && c.cmd == PP && 3 <= c.phase && c.phase + 1 < WORD32
    ensures var d := Xfer(c, out).0;
            var at := c.addr % SIZE;
            && d.selected && d.cmd == PP && d.phase == c.phase + 1 && d.addr == NextInPage(c.addr) && d.wren == c.wren
            && d.data == if c.wren then c.data[at := And(c.data[at], out)] else c.data
  {
  }

  lemma ProgramStep(c: Chip, f: Flash, args: seq<Byte>, out: Byte)
    requires f.Valid() && InCommand(c, f, PP, args) && |args| + 1 < WORD32
    ensures InCommand(Xfer(c, out).0, f, PP, args + [out])
    ensures Xfer(c, out).1 == Answer(f, PP, args)
  {
    if |args| < 3 {
      ProgramAddress(c, f, args, out);
    } else {
      ProgramData(c, f, args, out);
    }
  }

  lemma EraseStep(c: Chip, f: Flash, args: seq<Byte>, out: Byte)
    requires f.Valid() && InCommand(c, f, SE, args) && |args| + 1 < WORD32
    ensures InCommand(Xfer(c, out).0, f, SE, args + [out])
    ensures Xfer(c, out).1 == Answer(f, SE, args)
  {
    SplitArgs(args, out);
    XferKeepsValid(c, out);
    if |args| == 2 {
      var more := args + [out];
      assert more[..3] == more;
      EraseOne(f.data, BigEndian(more));
    }
  }

  lemma CommandStep(c: Chip, f: Flash, op: Byte, args: seq<Byte>, out: Byte)
    requires f.Valid() && InCommand(c, f, op, args) && |args| + 1 < WORD32
    ensures InCommand(Xfer(c, out).0, f, op, args + [out])
    ensures Xfer(c, out).1 == Answer(f, op, args)
  {
    if op == READ {
      ReadStep(c, f, args, out);
    } else if op == PP {
      ProgramStep(c, f, args, out);
    } else if op == SE {
      EraseStep(c, f, args, out);
    }
  }

  /** One byte: the device and the abstract NOR agree on the reply, the contents, the latch. */
  lemma {:induction false} XferRefines(c: Chip, f: Flash, frame: seq<Byte>, out: Byte)
    requires f.Valid() && c.Valid() && InFrame(c, f, frame) && |frame| < WORD32
    ensures InFrame(Xfer(c, out).0, f, frame + [out])
    ensures Xfer(c, out).1 == Reply(f, frame)
    decreases |frame|
  {
    if frame == [] {
      assert (frame + [out])[1..] == [];
      if Standalone(out) {
        assert InFrame(Xfer(c, out).0, Latch(f, out), []);
      } else {
        assert InCommand(Xfer(c, out).0, f, out, []);
      }
    } else {
      assert (frame + [out])[1..] == frame[1..] + [out];
      if Standalone(frame[0]) {
        XferRefines(c, Latch(f, frame[0]), frame[1..], out);
      } else {
        CommandStep(c, f, frame[0], frame[1..], out);
      }
    }
  }

  lemma {:induction false} FrameContents(c: Chip, f: Flash, frame: seq<Byte>)
    requires f.Valid() && InFrame(c, f, frame)
    ensures c.Valid() && c.selected && Flash(c.data, c.wren) == After(f, frame)
    decreases |frame|
  {
    if frame != [] && Standalone(frame[0]) {
      FrameContents(c, Latch(f, frame[0]), frame[1..]);
    }
  }
}
