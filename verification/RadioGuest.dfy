/** The firmware's register accesses, played on the emulated BK4819. */
module RadioGuest {
  import opened Bits
  import opened RadioCore
  import opened RadioBus
  import opened RadioDriver
  import opened RadioDevice

  method PlayEdge(radio: Bk4819, e: Edge)
    requires radio.Valid()
    modifies radio, radio.regs
    ensures radio.Valid() && radio.Pins() == Drive(old(radio.Pins()), e)
  {
    match e
    case Cs(level) => radio.SetCs(level);
    case Scl(level) => radio.SetScl(level);
    case Sda(level) => radio.SetSda(level);
  }

  method Play(radio: Bk4819, es: seq<Edge>)
    requires radio.Valid()
    modifies radio, radio.regs
    ensures radio.Valid() && radio.Pins() == DriveAll(old(radio.Pins()), es)
  {
    assert es[..0] == [];
    for i := 0 to |es|
      invariant radio.Valid() && radio.Pins() == DriveAll(old(radio.Pins()), es[..i])
    {
      DriveMore(old(radio.Pins()), es[..i], es[i]);
      assert es[..i + 1] == es[..i] + [es[i]];
      PlayEdge(radio, es[i]);
    }
    assert es[..|es|] == es;
  }

  /** The 75 edges of a write: the register named takes the value and no other changes, but for what REG_00 and REG_02
      do besides. */
  method WriteRegister(radio: Bk4819, r: nat, v: Word)
    requires radio.Valid() && Idle(radio.Pins()) && r < REGS
    modifies radio, radio.regs
    ensures radio.Valid() && Idle(radio.Pins())
    ensures forall j :: 0 <= j < REGS ==> Settled(old(radio.Core()), r, v, radio.Core(), j)
    ensures radio.pending == (if r == 0x02 then 0 else old(radio.pending))
    ensures radio.squelchOpen == old(radio.squelchOpen) && radio.tick == old(radio.tick)
  {
    WriteLands(radio.Pins(), r, v);
    Play(radio, WriteEdges(r, v));
  }

  /** The edges of a read, with the data line sampled after each falling clock: the register named is handed over and
      none changes, unless it is REG_0C, which is evaluated first. */
  method ReadRegister(radio: Bk4819, r: nat, ghost level: Word) returns (v: nat)
    requires radio.Valid() && Idle(radio.Pins()) && r < REGS && Heard(radio.Core(), level)
    modifies radio, radio.regs
    ensures radio.Valid() && Idle(radio.Pins()) && v == radio.regs[r]
    ensures r != 0x0c ==> radio.Core() == old(radio.Core())
    ensures r == 0x0c ==>
              && (radio.squelchOpen <==> Opens(old(radio.Core()), level))
              && (forall k: nat :: PolledFlag(old(radio.Core()), level, radio.Core(), k))
              && (forall j :: 0 <= j < REGS ==> PolledReg(old(radio.Core()), level, radio.Core(), j))
  {
    ghost var p := radio.Pins();
    ReadLands(p, r, level);
    v := ReadBits(radio, r);
    DriveMore(p, ReadHead(r) + Clocks(16), Cs(true));
    radio.SetCs(true);
  }

  lemma SampleNext(bs: seq<bool>, k: nat, v: nat, bit: bool)
    requires k < |bs| && v == FromBits(bs[..k]) && bit == bs[k]
    ensures v * 2 + (if bit then 1 else 0) == FromBits(bs[..k + 1])
  {
    OneBitMore(bs[..k], bit);
    assert bs[..k + 1] == bs[..k] + [bs[k]];
  }

  lemma AllTaken(bs: seq<bool>)
    ensures bs[..|bs|] == bs
  {
  }

  method ReadBits(radio: Bk4819, r: nat) returns (v: nat)
    requires radio.Valid() && r < REGS
    modifies radio, radio.regs
    ensures radio.Valid() && radio.Pins() == DriveAll(old(radio.Pins()), ReadHead(r) + Clocks(16))
    ensures v == FromBits(Samples(old(radio.Pins()), r))
  {
    ghost var p, es := radio.Pins(), ReadHead(r);
    ghost var bs := Samples(p, r);
    Play(radio, ReadHead(r));
    v := 0;
    assert es + Clocks(0) == es;
    for k := 0 to 16
      invariant radio.Valid() && radio.Pins() == DriveAll(p, es + Clocks(k)) && v == FromBits(bs[..k])
    {
      var bit := ReadBit(radio, p, es, k);
      SampleNext(bs, k, v, bit);
      v := v * 2 + if bit then 1 else 0;
    }
    AllTaken(bs);
  }

  /** Clock low, sample, clock high. */
  method ReadBit(radio: Bk4819, ghost p: Pins, ghost es: seq<Edge>, ghost k: nat) returns (bit: bool)
    requires p.Valid() && radio.Valid() && radio.Pins() == DriveAll(p, es + Clocks(k))
    modifies radio, radio.regs
    ensures radio.Valid() && radio.Pins() == DriveAll(p, es + Clocks(k + 1))
    ensures bit == DriveAll(p, es + Clocks(k) + [Scl(false)]).line
  {
    ghost var before := es + Clocks(k);
    DriveMore(p, before, Scl(false));
    DriveMore(p, before + [Scl(false)], Scl(true));
    assert es + Clocks(k + 1) == before + [Scl(false)] + [Scl(true)];
    radio.SetScl(false);
    bit := radio.sdaIn;
    radio.SetScl(true);
  }
}
