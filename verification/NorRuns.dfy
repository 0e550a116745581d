/** Whole runs of the flash: any interleaving of clocked bytes and chip-select edges. */
module NorRuns {
  import opened Bits
  import opened Nor
  import opened NorFrames

  datatype Event = Clock(out: Byte) | ChipSelect(level: bool)

  /** The pin is active low. */
  function SetCs(c: Chip, level: bool): Chip
  {
    if level then Deselect(c) else Select(c)
  }

  /** The device over a run, with the byte it answers to every clocked one. */
  function Run(c: Chip, es: seq<Event>): (r: (Chip, seq<Byte>))
    requires c.Valid()
    ensures r.0.Valid()
  {
    if es == [] then (c, [])
    else
      var (d, replies) := Run(c, es[..|es| - 1]);
      match es[|es| - 1]
      case Clock(out) => XferKeepsValid(d, out); (Xfer(d, out).0, replies + [Xfer(d, out).1])
      case ChipSelect(level) => (SetCs(d, level), replies)
  }

  // ------------------------------------------------ the abstract bus

  /** The contents when the chip was last deselected, and the frame since, if it is selected. */
  datatype Bus = Bus(flash: Flash, selected: bool, frame: seq<Byte>)

  function BusStep(b: Bus, e: Event): (r: (Bus, seq<Byte>))
    requires b.flash.Valid()
    ensures r.0.flash.Valid()
  {
    match e
    case Clock(out) =>
      if b.selected then (b.(frame := b.frame + [out]), [Reply(b.flash, b.frame)]) else (b, [0xff])
    case ChipSelect(level) =>
      if level == !b.selected then (b, [])
      else if level then (Bus(After(b.flash, b.frame), false, []), [])
      else (Bus(b.flash, true, []), [])
  }

  function BusRun(b: Bus, es: seq<Event>): (r: (Bus, seq<Byte>))
    requires b.flash.Valid()
    ensures r.0.flash.Valid()
  {
    if es == [] then (b, [])
    else
      var (d, replies) := BusRun(b, es[..|es| - 1]);
      var (d', more) := BusStep(d, es[|es| - 1]);
      (d', replies + more)
  }

  ghost predicate Refines(c: Chip, b: Bus)
    requires b.flash.Valid()
  {
    if b.selected then c.Valid() && InFrame(c, b.flash, b.frame)
    else c.Valid() && !c.selected && c.data == b.flash.data && c.wren == b.flash.wel
  }

  /** No frame of the run has more than n bytes. */
  ghost predicate FramesUpTo(b: Bus, es: seq<Event>, n: nat)
    requires b.flash.Valid()
  {
    forall k :: 0 <= k <= |es| ==> |BusRun(b, es[..k]).0.frame| <= n
  }

  lemma FrontFrames(b: Bus, es: seq<Event>, n: nat)
    requires b.flash.Valid() && es != [] && FramesUpTo(b, es, n)
    ensures FramesUpTo(b, es[..|es| - 1], n)
    ensures |BusRun(b, es[..|es| - 1]).0.frame| <= n && |BusRun(b, es).0.frame| <= n
  {
    var front := es[..|es| - 1];
    forall k | 0 <= k <= |front|
      ensures |BusRun(b, front[..k]).0.frame| <= n
    {
      assert front[..k] == es[..k];
    }
    assert front[..|front|] == front && es[..|es|] == es;
  }

  lemma {:induction false} RunRefines(c: Chip, b: Bus, es: seq<Event>)
    requires b.flash.Valid() && Refines(c, b) && FramesUpTo(b, es, WORD32)
    ensures Refines(Run(c, es).0, BusRun(b, es).0)
    ensures Run(c, es).1 == BusRun(b, es).1
    decreases |es|
  {
    if es != [] {
      var front := es[..|es| - 1];
      FrontFrames(b, es, WORD32);
      RunRefines(c, b, front);
      StepRefines(Run(c, front).0, BusRun(b, front).0, es[|es| - 1]);
    }
  }

  lemma StepRefines(d: Chip, a: Bus, e: Event)
    requires a.flash.Valid() && Refines(d, a) && |BusStep(a, e).0.frame| <= WORD32
    ensures Refines(Run(d, [e]).0, BusStep(a, e).0)
    ensures Run(d, [e]).1 == BusStep(a, e).1
  {
    assert [e][..0] == [];
    assert Run(d, []) == (d, []);
    if a.selected {
      FrameContents(d, a.flash, a.frame);
    }
    match e
    case Clock(out) =>
      XferKeepsValid(d, out);
      if a.selected {
        XferRefines(d, a.flash, a.frame, out);
      }
    case ChipSelect(level) =>
  }

  // ------------------------------------------------ what a frame can do to a cell

  /** The command of a frame that takes arguments, if it has one. */
  function Opcode(frame: seq<Byte>): Byte
  {
    if frame == [] then NONE else if Standalone(frame[0]) then Opcode(frame[1..]) else frame[0]
  }

  function Arguments(frame: seq<Byte>): seq<Byte>
  {
    if frame == [] then [] else if Standalone(frame[0]) then Arguments(frame[1..]) else frame[1..]
  }

  /** The write-enable latch once the frame's one-byte commands have been taken. */
  function Enabled(wel: bool, frame: seq<Byte>): bool
    decreases |frame|
  {
    if frame == [] || !Standalone(frame[0]) then wel
    else Enabled(if frame[0] == WREN then true else if frame[0] == WRDI then false else wel, frame[1..])
  }

  lemma {:induction false} FrameIsCommand(f: Flash, frame: seq<Byte>)
    requires f.Valid()
    ensures After(f, frame) ==
            Done(Flash(f.data, Enabled(f.wel, frame)), Opcode(frame), Arguments(frame))
    decreases |frame|
  {
    if frame != [] && Standalone(frame[0]) {
      FrameIsCommand(Latch(f, frame[0]), frame[1..]);
    }
  }

  /** Bit k of a programmed cell: set before, and set in every byte of the burst that fell on it. */
  lemma {:induction false} CellBits(x: Byte, start: nat, burst: seq<Byte>, cell: nat, k: nat)
    ensures Bit(Cell(x, start, burst, cell), k) <==>
            Bit(x, k) && forall j :: 0 <= j < |burst| && (start + j) % PAGE == cell ==> Bit(burst[j], k)
  {
    if burst != [] {
      var front, last := burst[..|burst| - 1], burst[|burst| - 1];
      CellBits(x, start, front, cell, k);
      AndBits(Cell(x, start, front, cell), last, k);
      assert forall j :: 0 <= j < |front| ==> burst[j] == front[j];
    }
  }

  lemma PlaceInPage(start: nat, k: nat)
    requires start % PAGE == 0 && k < PAGE
    ensures (start + k) % PAGE == k
  {
  }

  /** A burst no longer than a page touches each cell at most once. */
  lemma {:induction false} CellOnce(x: Byte, start: nat, burst: seq<Byte>, cell: nat)
    requires start % PAGE == 0 && |burst| <= PAGE && cell < PAGE
    ensures Cell(x, start, burst, cell) == if cell < |burst| then And(x, burst[cell]) else x
    decreases |burst|
  {
    if burst != [] {
      var front := burst[..|burst| - 1];
      CellOnce(x, start, front, cell);
      PlaceInPage(start, |burst| - 1);
    }
  }

  /** Programming one whole page from its start ands it, byte for byte, with the burst. */
  lemma PageProgrammed(data: seq<Byte>, start: nat, burst: seq<Byte>, i: nat)
    requires |data| == SIZE && start % PAGE == 0 && start < SIZE && |burst| == PAGE && i < SIZE
    ensures Programmed(data, start, burst)[i] ==
            if start <= i < start + PAGE then And(data[i], burst[i - start]) else data[i]
  {
    CellOnce(data[i], start, burst, i % PAGE);
    assert i / PAGE == start / PAGE <==> start <= i < start + PAGE;
  }

  /** A frame without write enable changes no data; only an erase can raise a bit, and then it
      leaves 0xff; a program reaches no byte outside the page it starts in. */
  lemma FrameEffect(f: Flash, frame: seq<Byte>, i: nat, k: nat)
    requires f.Valid() && i < SIZE
    ensures !Enabled(f.wel, frame) ==> After(f, frame).data == f.data
    ensures Bit(After(f, frame).data[i], k) && !Bit(f.data[i], k) ==>
              && Enabled(f.wel, frame) && Opcode(frame) == SE && |Arguments(frame)| >= 3
              && i / SECTOR == BigEndian(Arguments(frame)[..3]) % SIZE / SECTOR
              && After(f, frame).data[i] == 0xff
    ensures After(f, frame).data[i] != f.data[i] && Opcode(frame) != SE ==>
              && Opcode(frame) == PP && |Arguments(frame)| > 3
              && i / PAGE == BigEndian(Arguments(frame)[..3]) % SIZE / PAGE
  {
    FrameIsCommand(f, frame);
    var args := Arguments(frame);
    if Enabled(f.wel, frame) && Opcode(frame) == PP && |args| > 3 {
      CellBits(f.data[i], BigEndian(args[..3]), args[3..], i % PAGE, k);
    }
  }

  // ------------------------------------------------ how long a frame may be

  lemma {:induction false} XferAllRefines(c: Chip, f: Flash, frame: seq<Byte>, bs: seq<Byte>)
    requires f.Valid() && c.Valid() && InFrame(c, f, frame) && |frame| + |bs| <= WORD32
    ensures InFrame(XferAll(c, bs), f, frame + bs)
    decreases |bs|
  {
    if bs == [] {
      assert frame + bs == frame;
    } else {
      var front, last := bs[..|bs| - 1], bs[|bs| - 1];
      XferAllRefines(c, f, frame, front);
      XferRefines(XferAll(c, front), f, frame + front, last);
      assert frame + bs == frame + front + [last];
    }
  }

  /** The reply to the byte clocked after the read frame bs is the next consecutive byte. */
  ghost predicate ReadInOrder(n: nat)
  {
    forall c: Chip, bs: seq<Byte>, out: Byte ::
      c.Valid() && InFrame(c, Flash(c.data, c.wren), []) && 4 <= |bs| <= n && bs[0] == READ ==>
        Xfer(XferAll(c, bs), out).1 == c.data[(BigEndian(bs[1..4]) + |bs| - 4) % SIZE]
  }

  lemma ReadReplies(d: Chip, f: Flash, bs: seq<Byte>, out: Byte)
    requires f.Valid() && InFrame(d, f, bs) && 4 <= |bs| < WORD32 && bs[0] == READ
    ensures Xfer(d, out).1 == f.data[(BigEndian(bs[1..4]) + |bs| - 4) % SIZE]
  {
    assert bs[1..][..3] == bs[1..4];
    ReadStep(d, f, bs[1..], out);
  }

  lemma ReplyInOrder(c: Chip, bs: seq<Byte>, out: Byte)
    requires c.Valid() && InFrame(c, Flash(c.data, c.wren), []) && 4 <= |bs| < WORD32 && bs[0] == READ
    ensures Xfer(XferAll(c, bs), out).1 == c.data[(BigEndian(bs[1..4]) + |bs| - 4) % SIZE]
  {
    var f := Flash(c.data, c.wren);
    XferAllRefines(c, f, [], bs);
    assert [] + bs == bs;
    ReadReplies(XferAll(c, bs), f, bs, out);
  }

  /** The replies a driver waits on: the latch in the status register, and the chip's three identity bytes. */
  lemma StatusAndIdentity(c: Chip, bs: seq<Byte>, out: Byte)
    requires c.Valid() && InFrame(c, Flash(c.data, c.wren), []) && 1 <= |bs| < WORD32
    ensures bs[0] == 0x05 ==> Xfer(XferAll(c, bs), out).1 == if c.wren then 0x02 else 0x00
    ensures bs[0] == 0x9f ==>
              Xfer(XferAll(c, bs), out).1 ==
              if |bs| == 1 then 0x85 else if |bs| == 2 then 0x60 else if |bs| == 3 then 0x15 else 0xff
  {
    var f := Flash(c.data, c.wren);
    XferAllRefines(c, f, [], bs);
    assert [] + bs == bs;
    XferRefines(XferAll(c, bs), f, bs, out);
  }

  lemma ReadsInOrder(n: nat)
    requires n < WORD32
    ensures ReadInOrder(n)
  {
    forall c: Chip, bs: seq<Byte>, out: Byte
      | c.Valid() && InFrame(c, Flash(c.data, c.wren), []) && 4 <= |bs| <= n && bs[0] == READ
      ensures Xfer(XferAll(c, bs), out).1 == c.data[(BigEndian(bs[1..4]) + |bs| - 4) % SIZE]
    {
      ReplyInOrder(c, bs, out);
    }
  }

  /** After 2^32 - 1 argument bytes the counter wraps and the next byte is taken for an address. */
  lemma CounterWraps(c: Chip, f: Flash, args: seq<Byte>, out: Byte)
    requires f.Valid() && InCommand(c, f, READ, args) && |args| == WORD32 - 1
    ensures Xfer(c, out).1 == 0xff
  {
  }

  lemma LongReadFails(c: Chip, bs: seq<Byte>)
    requires c.Valid() && InFrame(c, Flash(c.data, c.wren), []) && |bs| == WORD32 && bs[0] == READ
    requires forall i :: 0 <= i < SIZE ==> c.data[i] == 0
    ensures Xfer(XferAll(c, bs), 0).1 != c.data[(BigEndian(bs[1..4]) + |bs| - 4) % SIZE]
  {
    var f := Flash(c.data, c.wren);
    XferAllRefines(c, f, [], bs);
    assert [] + bs == bs;
    CounterWraps(XferAll(c, bs), f, bs[1..], 0);
  }

  lemma ReadCounterWraps()
    ensures !ReadInOrder(WORD32)
  {
    var c := Chip(seq(SIZE, i => 0), true, NONE, 0, 0, false, false, 0, 0);
    var bs: seq<Byte> := seq(WORD32, i => if i == 0 then READ else 0);
    LongReadFails(c, bs);
  }

  /** Consecutive reads of any length are right exactly while the frame is below 2^32 bytes. */
  lemma ReadInOrderExactly(n: nat)
    ensures ReadInOrder(n) <==> n < WORD32
  {
    if n < WORD32 {
      ReadsInOrder(n);
    } else {
      ReadCounterWraps();
      assert ReadInOrder(n) ==> ReadInOrder(WORD32);
    }
  }

  // ------------------------------------------------ which runs refine the abstract bus

  /** Over every run whose frames have at most n bytes, the device answers what the abstract bus does. */
  ghost predicate RunsRefine(n: nat)
  {
    forall c: Chip, b: Bus, es: seq<Event> ::
      b.flash.Valid() && Refines(c, b) && FramesUpTo(b, es, n) ==> Run(c, es).1 == BusRun(b, es).1
  }

  function Clocks(bs: seq<Byte>): (r: seq<Event>)
    ensures |r| == |bs|
  {
    seq(|bs|, i requires 0 <= i < |bs| => Clock(bs[i]))
  }

  lemma {:induction false} ClocksRun(c: Chip, f: Flash, bs: seq<Byte>)
    requires c.Valid() && f.Valid()
    ensures Run(c, Clocks(bs)).0 == XferAll(c, bs) && |Run(c, Clocks(bs)).1| == |bs|
    ensures BusRun(Bus(f, true, []), Clocks(bs)).0 == Bus(f, true, bs) &&
            |BusRun(Bus(f, true, []), Clocks(bs)).1| == |bs|
    ensures bs != [] ==> var front := bs[..|bs| - 1];
              && Run(c, Clocks(bs)).1[|bs| - 1] == Xfer(XferAll(c, front), bs[|bs| - 1]).1
              && BusRun(Bus(f, true, []), Clocks(bs)).1[|bs| - 1] == Reply(f, front)
    decreases |bs|
  {
    if bs != [] {
      var front := bs[..|bs| - 1];
      assert Clocks(bs)[..|bs| - 1] == Clocks(front);
      ClocksRun(c, f, front);
      assert bs == front + [bs[|bs| - 1]];
    }
  }

  lemma ClocksFrames(f: Flash, bs: seq<Byte>)
    requires f.Valid()
    ensures FramesUpTo(Bus(f, true, []), Clocks(bs), |bs|)
  {
    var c := Chip(f.data, true, NONE, 0, 0, f.wel, false, 0, 0);
    forall k | 0 <= k <= |bs|
      ensures |BusRun(Bus(f, true, []), Clocks(bs)[..k]).0.frame| <= |bs|
    {
      ClocksRun(c, f, bs[..k]);
      assert Clocks(bs)[..k] == Clocks(bs[..k]);
    }
  }

  lemma LongRunFails(c: Chip, bs: seq<Byte>, es: seq<Event>)
    requires c.Valid() && InFrame(c, Flash(c.data, c.wren), []) && |bs| == WORD32 && bs[0] == READ
    requires (forall i :: 0 <= i < SIZE ==> c.data[i] == 0) && es == Clocks(bs + [0])
    ensures var b := Bus(Flash(c.data, c.wren), true, []);
            Refines(c, b) && FramesUpTo(b, es, WORD32 + 1) && Run(c, es).1 != BusRun(b, es).1
  {
    var f := Flash(c.data, c.wren);
    ClocksFrames(f, bs + [0]);
    ClocksRun(c, f, bs + [0]);
    assert (bs + [0])[..|bs|] == bs;
    XferAllRefines(c, f, [], bs);
    assert [] + bs == bs;
    CounterWraps(XferAll(c, bs), f, bs[1..], 0);
  }

  lemma FramesWithin(b: Bus, es: seq<Event>, m: nat, n: nat)
    requires b.flash.Valid() && FramesUpTo(b, es, m) && m <= n
    ensures FramesUpTo(b, es, n)
  {
  }

  /** The device is the abstract NOR over all runs exactly as long as no frame has more than 2^32 bytes. */
  lemma RunsRefineExactly(n: nat)
    ensures RunsRefine(n) <==> n <= WORD32
  {
    if n <= WORD32 {
      forall c: Chip, b: Bus, es: seq<Event> | b.flash.Valid() && Refines(c, b) && FramesUpTo(b, es, n)
        ensures Run(c, es).1 == BusRun(b, es).1
      {
        FramesWithin(b, es, n, WORD32);
        RunRefines(c, b, es);
      }
    } else {
      var c := Chip(seq(SIZE, i => 0), true, NONE, 0, 0, false, false, 0, 0);
      var bs: seq<Byte> := seq(WORD32, i => if i == 0 then READ else 0);
      LongRunFails(c, bs, Clocks(bs + [0]));
      FramesWithin(Bus(Flash(c.data, c.wren), true, []), Clocks(bs + [0]), WORD32 + 1, n);
    }
  }
}
