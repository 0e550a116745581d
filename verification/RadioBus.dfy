/** The BK4819's three-wire bus: an edge machine and a plain reading. */
module RadioBus {
  import opened Bits
  import opened RadioCore

  datatype Edge = Cs(level: bool) | Scl(level: bool) | Sda(level: bool)

  // ------------------------------------------------ the edge machine

  datatype Pins = Pins(cs: bool, scl: bool, sda: bool, bitCount: nat, shiftIn: nat, cmd: nat,
                       haveCmd: bool, reading: bool, skipFalling: bool, shiftOut: Word,
                       line: bool, core: Core)
  {
    ghost predicate Valid()
    {
      core.Valid() && cmd < REGS && bitCount < (if haveCmd then 16 else 8) && shiftIn < WORD32
    }
  }

  /** Chip select going high clears all progress of a transfer; the registers and the line stay. */
  function SetCs(p: Pins, level: bool): Pins
  {
    var q := if level && p.cs
             then p.(bitCount := 0, shiftIn := 0, haveCmd := false, reading := false, skipFalling := false)
             else p;
    q.(cs := !level)
  }

  function Shifted(p: Pins): nat
  {
    (p.shiftIn * 2 + (if p.sda then 1 else 0)) % WORD32
  }

  /** A rising clock edge of a selected chip. */
  function Rising(p: Pins): (q: Pins)
    requires p.Valid()
    ensures q.Valid()
  {
    var w := Shifted(p);
    if !p.haveCmd then
      if p.bitCount + 1 != 8 then
        p.(shiftIn := w, bitCount := p.bitCount + 1)
      else
        var q := p.(reading := w / 128 % 2 == 1, cmd := w % 128, haveCmd := true, bitCount := 0, shiftIn := 0);
        if q.reading then
          var (core, value) := ReadReg(p.core, q.cmd);
          q.(core := core, shiftOut := value, skipFalling := true, line := value >= 0x8000)
        else q
    else if !p.reading then
      if p.bitCount + 1 == 16 then
        p.(bitCount := 0, shiftIn := 0, haveCmd := false, core := WriteReg(p.core, p.cmd, w % 0x1_0000))
      else p.(shiftIn := w, bitCount := p.bitCount + 1)
    else p
  }

  /** A falling clock edge of a selected chip. */
  function Falling(p: Pins): (q: Pins)
    requires p.Valid()
    ensures q.Valid()
  {
    if p.skipFalling then p.(skipFalling := false)
    else if p.haveCmd && p.reading then
      var out := p.shiftOut * 2 % 0x1_0000;
      var q := p.(shiftOut := out, line := out >= 0x8000);
      if p.bitCount + 1 >= 16 then q.(bitCount := 0, haveCmd := false, reading := false)
      else q.(bitCount := p.bitCount + 1)
    else p
  }

  function SetScl(p: Pins, level: bool): (q: Pins)
    requires p.Valid()
    ensures q.Valid()
  {
    var q := p.(scl := level);
    if !p.cs then q
    else if level && !p.scl then Rising(q)
    else if !level && p.scl then Falling(q)
    else q
  }

  function Drive(p: Pins, e: Edge): (q: Pins)
    requires p.Valid()
    ensures q.Valid()
  {
    match e
    case Cs(level) => SetCs(p, level)
    case Scl(level) => SetScl(p, level)
    case Sda(level) => p.(sda := level)
  }

  function DriveAll(p: Pins, es: seq<Edge>): (q: Pins)
    requires p.Valid()
    ensures q.Valid()
  {
    if es == [] then p else Drive(DriveAll(p, es[..|es| - 1]), es[|es| - 1])
  }

  // ------------------------------------------------ the protocol, read plainly

  /** Command: register bits so far. Data: the register, and its value bits so far.
      Out: the word being presented, the number of its bits already taken, and whether the
      falling edge that ends the command byte is still to come. */
  datatype Phase = Command(bits: seq<bool>) | Data(reg: nat, bits: seq<bool>)
                 | Out(value: Word, taken: nat, leading: bool)
  {
    ghost predicate Valid()
    {
      match this
      case Command(bits) => |bits| < 8
      case Data(reg, bits) => reg < REGS && |bits| < 16
      case Out(_, taken, leading) => taken < 16 && (leading ==> taken == 0)
    }
  }

  datatype Decoder = Decoder(selected: bool, scl: bool, sda: bool, phase: Phase, line: bool, core: Core)
  {
    ghost predicate Valid() { core.Valid() && phase.Valid() && (!selected ==> phase == Command([])) }
  }

  lemma WordOfBits(bs: seq<bool>)
    requires |bs| <= 16
    ensures FromBits(bs) < 0x1_0000 && (|bs| <= 8 ==> FromBits(bs) < 256)
  {
    FromBitsBound(bs);
    PowersOfTwo();
    Pow2Grows(|bs|, if |bs| <= 8 then 8 else 16);
  }

  lemma PowersOfTwo()
    ensures Pow2(8) == 256 && Pow2(15) == 0x8000 && Pow2(16) == 0x1_0000
  {
    assert Pow2(4) == 16;
    assert Pow2(8) == 256;
    assert Pow2(12) == 4096;
  }

  lemma Pow2Grows(m: nat, n: nat)
    requires m <= n
    ensures Pow2(m) <= Pow2(n)
    decreases n - m
  {
    if m < n {
      Pow2Grows(m + 1, n);
    }
  }

  /** The protocol's reaction to a clock edge with a bit on the wire. */
  function OnRise(d: Decoder): (r: Decoder)
    requires d.Valid()
    ensures r.Valid() || !d.selected
  {
    match d.phase
    case Command(bits) =>
      var bs := bits + [d.sda];
      WordOfBits(bs);
      if |bs| < 8 then d.(phase := Command(bs))
      else if !bs[0] then d.(phase := Data(FromBits(bs) % 128, []))
      else
        var (core, value) := ReadReg(d.core, FromBits(bs) % 128);
        d.(core := core, phase := Out(value, 0, true), line := ToBits(value, 16)[0])
    case Data(reg, bits) =>
      var bs := bits + [d.sda];
      WordOfBits(bs);
      if |bs| < 16 then d.(phase := Data(reg, bs))
      else d.(phase := Command([]), core := WriteReg(d.core, reg, FromBits(bs)))
    case Out(_, _, _) => d
  }

  function OnFall(d: Decoder): (r: Decoder)
    requires d.Valid()
    ensures r.Valid() || !d.selected
  {
    match d.phase
    case Out(value, taken, leading) =>
      if leading then d.(phase := Out(value, taken, false))
      else if taken == 15 then d.(phase := Command([]), line := false)
      else d.(phase := Out(value, taken + 1, false), line := ToBits(value, 16)[taken + 1])
    case _ => d
  }

  function Decode(d: Decoder, e: Edge): (r: Decoder)
    requires d.Valid()
    ensures r.Valid()
  {
    match e
    case Cs(level) => if level then d.(selected := false, phase := Command([])) else d.(selected := true)
    case Sda(level) => d.(sda := level)
    case Scl(level) =>
      var s := d.(scl := level);
      if !d.selected || level == d.scl then s else if level then OnRise(s) else OnFall(s)
  }

  function DecodeAll(d: Decoder, es: seq<Edge>): (r: Decoder)
    requires d.Valid()
    ensures r.Valid()
  {
    if es == [] then d else Decode(DecodeAll(d, es[..|es| - 1]), es[|es| - 1])
  }

  // ------------------------------------------------ the edge machine refines it

  /** What is left of value once n bits have been shifted out of the top. */
  function Remaining(value: Word, n: nat): (r: seq<bool>)
    requires n <= 16
    ensures |r| == 16
  {
    ToBits(value, 16)[n..] + seq(n, i => false)
  }

  ghost predicate Agree(p: Pins, d: Decoder)
    requires d.Valid()
  {
    && p.Valid() && p.cs == d.selected && p.scl == d.scl && p.sda == d.sda && p.line == d.line && p.core == d.core
    && match d.phase
       case Command(bits) =>
         !p.haveCmd && !p.reading && !p.skipFalling && p.bitCount == |bits| && p.shiftIn == FromBits(bits)
       case Data(reg, bits) =>
         && p.haveCmd && !p.reading && !p.skipFalling && p.cmd == reg
         && p.bitCount == |bits| && p.shiftIn == FromBits(bits)
       case Out(value, taken, leading) =>
         && p.haveCmd && p.reading && p.skipFalling == leading && p.bitCount == taken && p.shiftIn == 0
         && ToBits(p.shiftOut, 16) == Remaining(value, taken)
  }

  lemma OneBitMore(bits: seq<bool>, b: bool)
    ensures FromBits(bits + [b]) == FromBits(bits) * 2 + if b then 1 else 0
  {
    assert (bits + [b])[..|bits|] == bits;
  }

  lemma NoWrap(x: nat)
    requires x < 0x1_0000
    ensures x % WORD32 == x
  {
  }

  lemma ShiftBit(p: Pins, bits: seq<bool>)
    requires p.shiftIn == FromBits(bits) && |bits| < 16
    ensures Shifted(p) == FromBits(bits + [p.sda])
  {
    OneBitMore(bits, p.sda);
    WordOfBits(bits + [p.sda]);
    NoWrap(FromBits(bits + [p.sda]));
  }

  lemma CommandWord(bs: seq<bool>)
    requires |bs| == 8
    ensures (FromBits(bs) / 128 % 2 == 1) == bs[0] && FromBits(bs) < 256
  {
    WordOfBits(bs);
    PowersOfTwo();
    ToFromBits(bs);
    LeadingBit(FromBits(bs), 8);
    assert Pow2(7) == 128;
  }

  lemma RiseEndsCommand(p: Pins, d: Decoder)
    requires d.Valid() && d.selected && Agree(p, d) && d.phase.Command? && |d.phase.bits| == 7
    ensures OnRise(d).Valid() && Agree(Rising(p), OnRise(d))
  {
    var bits := d.phase.bits;
    ShiftBit(p, bits);
    CommandWord(bits + [d.sda]);
    var value: Word := if Rising(p).reading then Rising(p).shiftOut else 0;
    PowersOfTwo();
    LeadingBit(value, 16);
    assert Remaining(value, 0) == ToBits(value, 16);
  }

  lemma RiseInCommand(p: Pins, d: Decoder)
    requires d.Valid() && d.selected && Agree(p, d) && d.phase.Command?
    ensures OnRise(d).Valid() && Agree(Rising(p), OnRise(d))
  {
    if |d.phase.bits| == 7 {
      RiseEndsCommand(p, d);
    } else {
      ShiftBit(p, d.phase.bits);
    }
  }

  lemma RiseInData(p: Pins, d: Decoder)
    requires d.Valid() && d.selected && Agree(p, d) && d.phase.Data?
    ensures OnRise(d).Valid() && Agree(Rising(p), OnRise(d))
  {
    ShiftBit(p, d.phase.bits);
    WordOfBits(d.phase.bits + [d.sda]);
  }

  lemma RiseAgrees(p: Pins, d: Decoder)
    requires d.Valid() && d.selected && Agree(p, d)
    ensures OnRise(d).Valid() && Agree(Rising(p), OnRise(d))
  {
    match d.phase
    case Command(_) => RiseInCommand(p, d);
    case Data(_, _) => RiseInData(p, d);
    case Out(_, _, _) =>
  }

  lemma FallAgrees(p: Pins, d: Decoder)
    requires d.Valid() && d.selected && Agree(p, d)
    ensures OnFall(d).Valid() && Agree(Falling(p), OnFall(d))
  {
    if d.phase.Out? && !d.phase.leading {
      var value, n := d.phase.value, d.phase.taken;
      PowersOfTwo();
      ShiftLeft(p.shiftOut, 16);
      var out := p.shiftOut * 2 % 0x1_0000;
      assert ToBits(out, 16) == ToBits(p.shiftOut, 16)[1..] + [false];
      assert ToBits(out, 16) == Remaining(value, n + 1);
      LeadingBit(out, 16);
      assert n < 15 ==> Remaining(value, n + 1)[0] == ToBits(value, 16)[n + 1];
      assert FromBits([]) == 0;
    }
  }

  /** For any run of edges whatever, the edge machine is the plain decoder. */
  lemma {:induction false} DriveAgrees(p: Pins, d: Decoder, es: seq<Edge>)
    requires d.Valid() && Agree(p, d)
    ensures Agree(DriveAll(p, es), DecodeAll(d, es))
    decreases |es|
  {
    if es != [] {
      var front := es[..|es| - 1];
      DriveAgrees(p, d, front);
      StepAgrees(DriveAll(p, front), DecodeAll(d, front), es[|es| - 1]);
    }
  }

  lemma StepAgrees(p: Pins, d: Decoder, e: Edge)
    requires d.Valid() && Agree(p, d)
    ensures Agree(Drive(p, e), Decode(d, e))
  {
    match e
    case Scl(level) =>
      if p.cs && level && !p.scl {
        RiseAgrees(p.(scl := level), d.(scl := level));
      } else if p.cs && !level && p.scl {
        FallAgrees(p.(scl := level), d.(scl := level));
      }
    case _ =>
  }
}
