/** Bit-banged register reads and writes: the firmware's edge sequences on the BK4819's bus. */
module RadioDriver {
  import opened Bits
  import opened RadioCore
  import opened RadioBus

  /** Each bit: data, clock up, clock down. */
  function BitEdges(bs: seq<bool>): (es: seq<Edge>)
    ensures |es| == 3 * |bs|
  {
    if bs == [] then []
    else BitEdges(bs[..|bs| - 1]) + [Sda(bs[|bs| - 1]), Scl(true), Scl(false)]
  }

  /** Clock low while deselected, then select. */
  const HEAD: seq<Edge> := [Scl(false), Cs(false)]

  function WriteBits(r: nat, v: Word): (bs: seq<bool>)
    ensures |bs| == 24
  {
    ToBits(r, 8) + ToBits(v, 16)
  }

  function WriteEdges(r: nat, v: Word): (es: seq<Edge>)
    ensures |es| == 75
  {
    HEAD + BitEdges(WriteBits(r, v)) + [Cs(true)]
  }

  /** The command byte of a read has bit 7 set. */
  function ReadHead(r: nat): seq<Edge>
  {
    HEAD + BitEdges(ToBits(128 + r, 8))
  }

  /** k data bits of a read: clock low, sample, clock high. */
  function Clocks(k: nat): seq<Edge>
  {
    if k == 0 then [] else Clocks(k - 1) + [Scl(false), Scl(true)]
  }

  /** The levels the firmware samples: bit k after the clock has gone low for it. */
  function Samples(p: Pins, r: nat): (bs: seq<bool>)
    requires p.Valid()
    ensures |bs| == 16
  {
    seq(16, k requires 0 <= k < 16 => DriveAll(p, ReadHead(r) + Clocks(k) + [Scl(false)]).line)
  }

  function ReadEdges(r: nat): seq<Edge>
  {
    ReadHead(r) + Clocks(16) + [Cs(true)]
  }

  /** Deselected with no transfer under way. */
  ghost predicate Idle(p: Pins)
  {
    && p.Valid() && !p.cs && !p.haveCmd && !p.reading && !p.skipFalling
    && p.bitCount == 0 && p.shiftIn == 0
  }

  function IdleDecoder(p: Pins): Decoder
  {
    Decoder(false, p.scl, p.sda, Command([]), p.line, p.core)
  }

  lemma DriveMore(p: Pins, es: seq<Edge>, e: Edge)
    requires p.Valid()
    ensures DriveAll(p, es + [e]) == Drive(DriveAll(p, es), e)
  {
    assert (es + [e])[..|es|] == es;
  }

  lemma DecodeMore(d: Decoder, es: seq<Edge>, e: Edge)
    requires d.Valid()
    ensures DecodeAll(d, es + [e]) == Decode(DecodeAll(d, es), e)
  {
    assert (es + [e])[..|es|] == es;
  }

  // ------------------------------------------------ any run of edges

  /** Chip select going high ends any transfer at once, registers untouched. */
  lemma DeselectRestoresIdle(p: Pins, es: seq<Edge>)
    requires Idle(p)
    ensures Idle(DriveAll(p, es + [Cs(true)]))
    ensures DriveAll(p, es + [Cs(true)]).core == DriveAll(p, es).core
  {
    DriveMore(p, es, Cs(true));
    var d := IdleDecoder(p);
    DriveAgrees(p, d, es);
    assert DecodeAll(d, es).Valid();
    StepAgrees(DriveAll(p, es), DecodeAll(d, es), Cs(true));
  }

  /** Clock and data edges while deselected change nothing but the levels themselves. */
  lemma {:induction false} DeselectedTraffic(p: Pins, es: seq<Edge>)
    requires Idle(p) && forall e :: e in es ==> e != Cs(false)
    ensures var q := DriveAll(p, es); q == p.(scl := q.scl, sda := q.sda)
    decreases |es|
  {
    if es != [] {
      var front := es[..|es| - 1];
      assert forall e :: e in front ==> e in es;
      assert es[|es| - 1] in es;
      DeselectedTraffic(p, front);
    }
  }

  /** One bit sent: three edges. */
  lemma SendBitEdges(bs: seq<bool>, n: nat)
    requires n < |bs|
    ensures HEAD + BitEdges(bs[..n + 1]) == HEAD + BitEdges(bs[..n]) + [Sda(bs[n])] + [Scl(true)] + [Scl(false)]
  {
    assert bs[..n + 1][..n] == bs[..n];
  }

  lemma Selecting(d: Decoder, bs: seq<bool>)
    requires d.Valid() && !d.selected
    ensures DecodeAll(d, HEAD + BitEdges(bs[..0])) == d.(scl := false, selected := true)
  {
    assert HEAD + BitEdges(bs[..0]) == [] + [Scl(false)] + [Cs(false)];
    DecodeMore(d, [] + [Scl(false)], Cs(false));
    DecodeMore(d, [], Scl(false));
  }

  // ------------------------------------------------ sending bits

  /** The decoder's phase once it has taken the first n bits of a write of v to r. */
  function WritePhase(r: nat, v: Word, n: nat): Phase
    requires n <= 24
  {
    var bs := WriteBits(r, v);
    if n < 8 then Command(bs[..n]) else if n < 24 then Data(r, bs[8..n]) else Command([])
  }

  function WriteCore(c: Core, r: nat, v: Word, n: nat): Core
    requires c.Valid() && r < REGS
  {
    if n < 24 then c else WriteReg(c, r, v)
  }

  ghost predicate Writing(d: Decoder, c: Core, r: nat, v: Word, n: nat)
    requires c.Valid() && r < REGS && n <= 24
  {
    d.Valid() && d.selected && d.phase == WritePhase(r, v, n) && d.core == WriteCore(c, r, v, n)
  }

  /** The rising edge of bit n takes that bit. */
  lemma WriteRise(d: Decoder, c: Core, r: nat, v: Word, n: nat)
    requires c.Valid() && r < REGS && n < 24 && Writing(d, c, r, v, n)
    requires d.sda == WriteBits(r, v)[n]
    ensures OnRise(d).Valid() && Writing(OnRise(d), c, r, v, n + 1)
  {
    if n < 8 {
      WriteRiseInCommand(d, c, r, v, n);
    } else {
      WriteRiseInData(d, c, r, v, n);
    }
  }

  lemma WriteRiseInCommand(d: Decoder, c: Core, r: nat, v: Word, n: nat)
    requires c.Valid() && r < REGS && n < 8 && Writing(d, c, r, v, n)
    requires d.sda == WriteBits(r, v)[n]
    ensures OnRise(d).Valid() && Writing(OnRise(d), c, r, v, n + 1)
  {
    var bs := WriteBits(r, v);
    assert bs[..n] + [bs[n]] == bs[..n + 1];
    if n == 7 {
      RegisterNumber(r, v);
    }
  }

  lemma WriteRiseInData(d: Decoder, c: Core, r: nat, v: Word, n: nat)
    requires c.Valid() && r < REGS && 8 <= n < 24 && Writing(d, c, r, v, n)
    requires d.sda == WriteBits(r, v)[n]
    ensures OnRise(d).Valid() && Writing(OnRise(d), c, r, v, n + 1)
  {
    var bs := WriteBits(r, v);
    assert bs[8..n] + [bs[n]] == bs[8..n + 1];
    if n == 23 {
      ValueNumber(r, v);
    }
  }

  lemma ValueNumber(r: nat, v: Word)
    ensures FromBits(WriteBits(r, v)[8..24]) == v
  {
    assert WriteBits(r, v)[8..24] == ToBits(v, 16);
    PowersOfTwo();
    FromToBits(v, 16);
  }

  lemma RegisterNumber(r: nat, v: Word)
    requires r < REGS
    ensures var bs := WriteBits(r, v)[..8]; !bs[0] && FromBits(bs) == r
  {
    var bs := WriteBits(r, v)[..8];
    assert bs == ToBits(r, 8);
    PowersOfTwo();
    FromToBits(r, 8);
    CommandWord(bs);
  }

  lemma OneBit(d: Decoder, c: Core, r: nat, v: Word, n: nat)
    requires c.Valid() && r < REGS && n < 24 && Writing(d, c, r, v, n) && !d.scl
    ensures var s := Decode(d, Sda(WriteBits(r, v)[n]));
            var u := Decode(s, Scl(true));
            && Writing(s, c, r, v, n) && Writing(u, c, r, v, n + 1)
            && Writing(Decode(u, Scl(false)), c, r, v, n + 1) && !Decode(u, Scl(false)).scl
  {
    var s := Decode(d, Sda(WriteBits(r, v)[n]));
    WriteRise(s.(scl := true), c, r, v, n);
  }

  lemma {:induction false} WriteBitsTaken(d: Decoder, r: nat, v: Word, n: nat)
    requires d.Valid() && !d.selected && r < REGS && n <= 24
    ensures var w := DecodeAll(d, HEAD + BitEdges(WriteBits(r, v)[..n]));
            Writing(w, d.core, r, v, n) && !w.scl
    decreases n
  {
    var bs := WriteBits(r, v);
    if n == 0 {
      Selecting(d, bs);
    } else {
      WriteBitsTaken(d, r, v, n - 1);
      var es := HEAD + BitEdges(bs[..n - 1]);
      SendBitEdges(bs, n - 1);
      DecodeMore(d, es, Sda(bs[n - 1]));
      DecodeMore(d, es + [Sda(bs[n - 1])], Scl(true));
      DecodeMore(d, es + [Sda(bs[n - 1])] + [Scl(true)], Scl(false));
      OneBit(DecodeAll(d, es), d.core, r, v, n - 1);
    }
  }

  /** The write sequence sets exactly that register, with the side effects of REG_00 and REG_02. */
  lemma WriteTransaction(p: Pins, r: nat, v: Word)
    requires Idle(p) && r < REGS
    ensures var q := DriveAll(p, WriteEdges(r, v)); Idle(q) && q.core == WriteReg(p.core, r, v)
  {
    var es := HEAD + BitEdges(WriteBits(r, v));
    assert WriteBits(r, v)[..24] == WriteBits(r, v);
    WriteBitsTaken(IdleDecoder(p), r, v, 24);
    DriveAgrees(p, IdleDecoder(p), es);
    DeselectRestoresIdle(p, es);
  }

  /** Cut off anywhere by chip select, the write has happened exactly if its last data bit was
      clocked in: 73 edges. */
  lemma WriteCutShort(p: Pins, r: nat, v: Word, n: nat)
    requires Idle(p) && r < REGS && n <= 75
    ensures var q := DriveAll(p, WriteEdges(r, v)[..n] + [Cs(true)]);
            Idle(q) && q.core == if n < 73 then p.core else WriteReg(p.core, r, v)
  {
    var es := WriteEdges(r, v)[..n];
    DeselectRestoresIdle(p, es);
    DriveAgrees(p, IdleDecoder(p), es);
    if n < 2 {
      PrefixOfHead(IdleDecoder(p), r, v, n);
    } else if n == 75 {
      WriteTransaction(p, r, v);
      DriveMore(p, WriteEdges(r, v)[..74], Cs(true));
      assert WriteEdges(r, v)[..74] + [Cs(true)] == es;
    } else {
      PrefixOfWrite(IdleDecoder(p), r, v, n);
    }
  }

  lemma PrefixOfHead(d: Decoder, r: nat, v: Word, n: nat)
    requires d.Valid() && !d.selected && n < 2
    ensures DecodeAll(d, WriteEdges(r, v)[..n]).core == d.core
  {
    if n == 1 {
      assert WriteEdges(r, v)[..1] == [] + [Scl(false)];
      DecodeMore(d, [], Scl(false));
    }
  }

  lemma {:induction false} BitEdgesAt(bs: seq<bool>, j: nat)
    requires j < |bs|
    ensures BitEdges(bs)[..3 * j] == BitEdges(bs[..j])
    ensures BitEdges(bs)[3 * j] == Sda(bs[j]) && BitEdges(bs)[3 * j + 1] == Scl(true) &&
            BitEdges(bs)[3 * j + 2] == Scl(false)
    decreases |bs|
  {
    var front := bs[..|bs| - 1];
    if j < |front| {
      BitEdgesAt(front, j);
      assert front[..j] == bs[..j];
      assert BitEdges(bs)[..3 * j] == BitEdges(front)[..3 * j];
    }
  }

  lemma PartOf(es: seq<Edge>, k: nat, part: nat)
    requires k + 2 < |es| && part < 3
    ensures es[..k + part] == if part == 0 then es[..k] else if part == 1 then es[..k] + [es[k]]
                              else es[..k] + [es[k]] + [es[k + 1]]
  {
  }

  /** The prefix of n edges of the write sequence: some whole bits, then part of the next. */
  lemma PrefixShape(r: nat, v: Word, n: nat)
    requires 2 <= n < 74
    ensures var bs, j := WriteBits(r, v), (n - 2) / 3;
            var whole := HEAD + BitEdges(bs[..j]);
            WriteEdges(r, v)[..n] == if (n - 2) % 3 == 0 then whole
                                     else if (n - 2) % 3 == 1 then whole + [Sda(bs[j])]
                                     else whole + [Sda(bs[j])] + [Scl(true)]
  {
    var bs, j := WriteBits(r, v), (n - 2) / 3;
    BitEdgesAt(bs, j);
    PartOf(BitEdges(bs), 3 * j, (n - 2) % 3);
    assert WriteEdges(r, v)[..n] == HEAD + BitEdges(bs)[..n - 2];
    assert n - 2 == 3 * j + (n - 2) % 3;
  }

  lemma PrefixOfWrite(d: Decoder, r: nat, v: Word, n: nat)
    requires d.Valid() && !d.selected && r < REGS && 2 <= n < 75
    ensures DecodeAll(d, WriteEdges(r, v)[..n]).core == if n < 73 then d.core else WriteReg(d.core, r, v)
  {
    var bs := WriteBits(r, v);
    if n == 74 {
      assert bs[..24] == bs;
      WriteBitsTaken(d, r, v, 24);
      assert WriteEdges(r, v)[..74] == HEAD + BitEdges(bs);
    } else {
      var j := (n - 2) / 3;
      var whole := HEAD + BitEdges(bs[..j]);
      PrefixShape(r, v, n);
      WriteBitsTaken(d, r, v, j);
      OneBit(DecodeAll(d, whole), d.core, r, v, j);
      DecodeMore(d, whole, Sda(bs[j]));
      DecodeMore(d, whole + [Sda(bs[j])], Scl(true));
    }
  }

  // ------------------------------------------------ reading

  /** The decoder presenting value, k bits taken and the clock high again after the kth. */
  ghost predicate Presenting(d: Decoder, value: Word, taken: nat, leading: bool)
  {
    d.Valid() && d.selected && d.phase == Out(value, taken, leading) && d.line == ToBits(value, 16)[taken]
  }

  /** The first n bits of a command byte. */
  lemma {:induction false} CommandBitsTaken(d: Decoder, bs: seq<bool>, n: nat)
    requires d.Valid() && !d.selected && |bs| == 8 && n < 8
    ensures var w := DecodeAll(d, HEAD + BitEdges(bs[..n]));
            w.Valid() && w.selected && !w.scl && w.phase == Command(bs[..n]) && w.core == d.core
    decreases n
  {
    if n == 0 {
      Selecting(d, bs);
    } else {
      CommandBitsTaken(d, bs, n - 1);
      var es := HEAD + BitEdges(bs[..n - 1]);
      SendBitEdges(bs, n - 1);
      assert bs[..n - 1] + [bs[n - 1]] == bs[..n];
      DecodeMore(d, es, Sda(bs[n - 1]));
      DecodeMore(d, es + [Sda(bs[n - 1])], Scl(true));
      DecodeMore(d, es + [Sda(bs[n - 1])] + [Scl(true)], Scl(false));
    }
  }

  lemma ReadCommand(bs: seq<bool>, r: nat)
    requires bs == ToBits(128 + r, 8) && r < REGS
    ensures |bs| == 8 && bs[0] && FromBits(bs) % 128 == r
  {
    PowersOfTwo();
    FromToBits(128 + r, 8);
    CommandWord(bs);
  }

  /** The edges of the eighth bit, on a decoder that has seven. */
  lemma EighthBit(w: Decoder, bs: seq<bool>, r: nat)
    requires w.Valid() && w.selected && !w.scl && |bs| == 8 && w.phase == Command(bs[..7])
    requires bs[0] && FromBits(bs) % 128 == r < REGS
    ensures var u := Decode(Decode(Decode(w, Sda(bs[7])), Scl(true)), Scl(false));
            Presenting(u, ReadReg(w.core, r).1, 0, false) && !u.scl && u.core == ReadReg(w.core, r).0
  {
    assert bs[..7] + [bs[7]] == bs;
    var v := Decode(Decode(w, Sda(bs[7])), Scl(true));
    assert v.phase == Out(ReadReg(w.core, r).1, 0, true);
  }

  lemma ThreeEdges(d: Decoder, es: seq<Edge>, x: Edge, y: Edge, z: Edge)
    requires d.Valid()
    ensures DecodeAll(d, es + [x] + [y] + [z]) == Decode(Decode(Decode(DecodeAll(d, es), x), y), z)
  {
    DecodeMore(d, es, x);
    DecodeMore(d, es + [x], y);
    DecodeMore(d, es + [x] + [y], z);
  }

  /** The eighth command bit latches the register; the edge that ends it takes no data bit. */
  lemma ReadHeadTaken(d: Decoder, r: nat)
    requires d.Valid() && !d.selected && r < REGS
    ensures var w := DecodeAll(d, ReadHead(r));
            var (core, value) := ReadReg(d.core, r);
            Presenting(w, value, 0, false) && !w.scl && w.core == core
  {
    var bs := ToBits(128 + r, 8);
    var es := HEAD + BitEdges(bs[..7]);
    ReadCommand(bs, r);
    CommandBitsTaken(d, bs, 7);
    EighthBit(DecodeAll(d, es), bs, r);
    ThreeEdges(d, es, Sda(bs[7]), Scl(true), Scl(false));
    HeadEnds(r);
  }

  lemma HeadEnds(r: nat)
    ensures var bs := ToBits(128 + r, 8);
            ReadHead(r) == HEAD + BitEdges(bs[..7]) + [Sda(bs[7])] + [Scl(true)] + [Scl(false)]
  {
    var bs := ToBits(128 + r, 8);
    SendBitEdges(bs, 7);
    assert bs[..8] == bs;
  }

  /** k data clocks after the head, the clock is high (low at the very start) and bit k comes next. */
  ghost predicate Clocked(w: Decoder, core: Core, value: Word, k: nat)
  {
    && w.Valid() && k <= 16
    && Presenting(w, value, if k == 0 then 0 else k - 1, false) && w.core == core && w.scl == (k > 0)
    && (k < 16 ==> Presenting(Decode(w, Scl(false)), value, k, false))
  }

  lemma OneMoreClock(w: Decoder, core: Core, value: Word, k: nat)
    requires Clocked(w, core, value, k) && k < 16
    ensures Clocked(Decode(Decode(w, Scl(false)), Scl(true)), core, value, k + 1)
  {
  }

  lemma FirstClocked(w: Decoder, core: Core, value: Word)
    requires w.Valid() && Presenting(w, value, 0, false) && !w.scl && w.core == core
    ensures Clocked(w, core, value, 0)
  {
  }

  lemma {:induction false} DataClocks(d: Decoder, r: nat, k: nat)
    requires d.Valid() && !d.selected && r < REGS && k <= 16
    ensures Clocked(DecodeAll(d, ReadHead(r) + Clocks(k)), ReadReg(d.core, r).0, ReadReg(d.core, r).1, k)
    decreases k
  {
    var (core, value) := ReadReg(d.core, r);
    if k == 0 {
      assert ReadHead(r) + Clocks(0) == ReadHead(r);
      ReadHeadTaken(d, r);
      FirstClocked(DecodeAll(d, ReadHead(r)), core, value);
    } else {
      DataClocks(d, r, k - 1);
      var es := ReadHead(r) + Clocks(k - 1);
      OneMoreClock(DecodeAll(d, es), core, value, k - 1);
      TwoEdges(d, es, Scl(false), Scl(true));
      assert ReadHead(r) + Clocks(k) == es + [Scl(false)] + [Scl(true)];
    }
  }

  lemma TwoEdges(d: Decoder, es: seq<Edge>, x: Edge, y: Edge)
    requires d.Valid()
    ensures DecodeAll(d, es + [x] + [y]) == Decode(Decode(DecodeAll(d, es), x), y)
  {
    DecodeMore(d, es, x);
    DecodeMore(d, es + [x], y);
  }

  /** The read sequence hands the master exactly the word latched at the eighth command bit. */
  lemma ReadTransaction(p: Pins, r: nat)
    requires Idle(p) && r < REGS
    ensures FromBits(Samples(p, r)) == ReadReg(p.core, r).1
    ensures var q := DriveAll(p, ReadEdges(r)); Idle(q) && q.core == ReadReg(p.core, r).0
  {
    var d := IdleDecoder(p);
    var (core, value) := ReadReg(p.core, r);
    forall k | 0 <= k < 16
      ensures Samples(p, r)[k] == ToBits(value, 16)[k]
    {
      var es := ReadHead(r) + Clocks(k);
      DataClocks(d, r, k);
      DecodeMore(d, es, Scl(false));
      DriveAgrees(p, d, es + [Scl(false)]);
    }
    assert Samples(p, r) == ToBits(value, 16);
    PowersOfTwo();
    FromToBits(value, 16);
    DataClocks(d, r, 16);
    DriveAgrees(p, d, ReadHead(r) + Clocks(16));
    DeselectRestoresIdle(p, ReadHead(r) + Clocks(16));
  }

  // ------------------------------------------------ registers across the wires

  /** Across the wires: every register after the write sequence, and the flags. */
  lemma WriteLands(p: Pins, r: nat, v: Word)
    requires Idle(p) && r < REGS
    ensures var q := DriveAll(p, WriteEdges(r, v));
            && Idle(q) && (forall j :: 0 <= j < REGS ==> Settled(p.core, r, v, q.core, j))
            && q.core.pending == (if r == 0x02 then 0 else p.core.pending)
            && q.core.squelchOpen == p.core.squelchOpen && q.core.tick == p.core.tick
            && q.core.stations == p.core.stations
  {
    WriteTransaction(p, r, v);
    WriteExactly(p.core, r, v);
  }

  /** The read sequence hands over the register it names and changes none; reading REG_0C is a poll first. */
  lemma ReadLands(p: Pins, r: nat, level: Word)
    requires Idle(p) && r < REGS && Heard(p.core, level)
    ensures var q := DriveAll(p, ReadEdges(r));
            && Idle(q) && FromBits(Samples(p, r)) == q.core.regs[r]
            && (r != 0x0c ==> q.core == p.core)
            && (r == 0x0c ==>
                  && (q.core.squelchOpen <==> Opens(p.core, level))
                  && (forall k: nat :: PolledFlag(p.core, level, q.core, k))
                  && (forall j :: 0 <= j < REGS ==> PolledReg(p.core, level, q.core, j)))
  {
    ReadTransaction(p, r);
    PollExactly(p.core, level);
  }

  /** What is written to a register reads back, and REG_02 reads back the flags that were pending; REG_0C is the one
      register that a read may find changed. */
  lemma WriteThenRead(p: Pins, r: nat, v: Word)
    requires Idle(p) && r < REGS && r != 0x0c
    ensures var q := DriveAll(p, WriteEdges(r, v));
            FromBits(Samples(q, r)) == if r == 0x02 then p.core.pending else v
  {
    WriteLands(p, r, v);
    var q := DriveAll(p, WriteEdges(r, v));
    assert Settled(p.core, r, v, q.core, r);
    ReadTransaction(q, r);
  }

  /** Tuning: the low word to REG_38, the high word to REG_39. */
  lemma TunedByEdges(p: Pins, low: Word, high: Word)
    requires Idle(p)
    ensures var q := DriveAll(p, WriteEdges(0x38, low));
            Idle(q) && Tuned(DriveAll(q, WriteEdges(0x39, high)).core) == high as nat * 0x1_0000 + low
  {
    var q := DriveAll(p, WriteEdges(0x38, low));
    WriteLands(p, 0x38, low);
    WriteLands(q, 0x39, high);
    assert Settled(p.core, 0x38, low, q.core, 0x38);
    var t := DriveAll(q, WriteEdges(0x39, high));
    assert Settled(q.core, 0x39, high, t.core, 0x38) && Settled(q.core, 0x39, high, t.core, 0x39);
  }

  // ------------------------------------------------ why the falling edge is skipped

  /** A falling edge once t bits are taken presents bit t + 1, or nothing after the last. */
  lemma FallPresentsNext(w: Decoder, value: Word, t: nat)
    requires w.Valid() && w.selected && w.scl && w.phase == Out(value, t, false)
    ensures var s := Decode(w, Scl(false));
            && s.selected && !s.scl && s.line == (ToBits(value, 16)[1..] + [false])[t]
            && (t < 15 ==> s.phase == Out(value, t + 1, false))
  {
  }

  lemma FirstClock(d: Decoder, value: Word)
    requires Presenting(d, value, 0, false) && d.scl
    ensures var s := DecodeAll(d, [Scl(false)]);
            && s == Decode(d, Scl(false)) && s.selected && s.phase == Out(value, 1, false)
            && s.line == ToBits(value, 16)[1] && !s.scl
  {
    DecodeMore(d, [], Scl(false));
    assert [] + [Scl(false)] == [Scl(false)];
    FallPresentsNext(d, value, 0);
  }

  /** Low, then high, from a state with the clock high: one more bit taken. */
  lemma OnePair(d: Decoder, es: seq<Edge>, value: Word, t: nat)
    requires d.Valid() && t < 15
    requires var w := DecodeAll(d, es); w.selected && w.scl && w.phase == Out(value, t, false)
    ensures var u := DecodeAll(d, es + [Scl(false)] + [Scl(true)]);
            u.selected && u.scl && u.phase == Out(value, t + 1, false)
  {
    DecodeMore(d, es, Scl(false));
    DecodeMore(d, es + [Scl(false)], Scl(true));
    FallPresentsNext(DecodeAll(d, es), value, t);
  }

  /** Were the edge that ends the command byte taken for a data bit: the decoder after it and k
      data clocks. */
  lemma {:induction false} ClocksWithoutSkip(d: Decoder, value: Word, k: nat)
    requires Presenting(d, value, 0, false) && d.scl && 1 <= k <= 15
    ensures var w := DecodeAll(d, [Scl(false)] + Clocks(k));
            w.selected && w.scl && w.phase == Out(value, k, false)
    decreases k
  {
    var es := [Scl(false)] + Clocks(k - 1);
    assert [Scl(false)] + Clocks(k) == es + [Scl(false)] + [Scl(true)];
    if k == 1 {
      FirstClock(d, value);
      assert es == [Scl(false)];
      DecodeMore(d, es, Scl(false));
      DecodeMore(d, es + [Scl(false)], Scl(true));
    } else {
      ClocksWithoutSkip(d, value, k - 1);
      OnePair(d, es, value, k - 1);
    }
  }

  lemma SampleWithoutSkip(d: Decoder, value: Word, k: nat)
    requires Presenting(d, value, 0, false) && d.scl && k <= 15
    ensures DecodeAll(d, [Scl(false)] + Clocks(k) + [Scl(false)]).line == (ToBits(value, 16)[1..] + [false])[k]
  {
    var es := [Scl(false)] + Clocks(k);
    DecodeMore(d, es, Scl(false));
    if k > 0 {
      ClocksWithoutSkip(d, value, k);
      FallPresentsNext(DecodeAll(d, es), value, k);
    } else {
      FirstClock(d, value);
      assert es == [Scl(false)];
    }
  }

  /** Without the skip the guest would receive every word shifted one place up. */
  lemma WithoutSkipWordIsDoubled(p: Pins, d: Decoder, value: Word)
    requires Presenting(d, value, 0, false) && d.scl && Agree(p, d)
    ensures var got := seq(16, k requires 0 <= k < 16 => DriveAll(p, [Scl(false)] + Clocks(k) + [Scl(false)]).line);
            FromBits(got) == value * 2 % 0x1_0000
  {
    var got := seq(16, k requires 0 <= k < 16 => DriveAll(p, [Scl(false)] + Clocks(k) + [Scl(false)]).line);
    PowersOfTwo();
    ShiftLeft(value, 16);
    forall k | 0 <= k < 16
      ensures got[k] == (ToBits(value, 16)[1..] + [false])[k]
    {
      SampleWithoutSkip(d, value, k);
      DriveAgrees(p, d, [Scl(false)] + Clocks(k) + [Scl(false)]);
    }
    assert got == ToBits(value * 2 % 0x1_0000, 16);
    FromToBits(value * 2 % 0x1_0000, 16);
  }
}
