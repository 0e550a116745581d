/** The BK4819 as the emulator keeps it, changed in place by its pins. */
module RadioDevice {
  import opened Bits
  import opened RadioCore
  import B = RadioBus

  class Bk4819 {
    const regs: array<Word>
    const stations: seq<Station>
    var pending: Word
    var squelchOpen: bool
    var tick: nat

    var cs: bool
    var scl: bool
    var sdaOut: bool
    var bitCount: nat
    var shiftIn: nat
    var cmd: nat
    var haveCmd: bool
    var reading: bool
    var skipFalling: bool
    var shiftOut: Word
    var sdaIn: bool

    ghost function Core(): RadioCore.Core
      reads this, regs
    {
      RadioCore.Core(regs[..], pending, squelchOpen, tick, stations)
    }

    ghost function Pins(): B.Pins
      reads this, regs
    {
      B.Pins(cs, scl, sdaOut, bitCount, shiftIn, cmd, haveCmd, reading, skipFalling, shiftOut, sdaIn, Core())
    }

    ghost predicate Valid()
      reads this, regs
    {
      Pins().Valid()
    }

    constructor (stations: seq<Station>)
      ensures fresh(regs) && Valid() && Core() == Reset(stations) && !cs && !haveCmd && !reading
    {
      this.stations := stations;
      regs := new Word[REGS](i => 0);
      pending, squelchOpen, tick := 0, false, 0;
      cs, scl, sdaOut, bitCount, shiftIn, cmd := false, false, false, 0, 0, 0;
      haveCmd, reading, skipFalling, shiftOut, sdaIn := false, false, false, 0, false;
      new;
      SeedMeasurements();
      assert regs[..] == Seed(seq(REGS, i => 0));
    }

    method SeedMeasurements()
      requires regs.Length == REGS
      modifies regs
      ensures regs[..] == Seed(old(regs[..]))
    {
      regs[INTERRUPT] := 0x0000;
      regs[RSSI] := 0x01e0;
      regs[GLITCH] := 0x0010;
      regs[NOISE] := 0x0010;
    }

    /** bk4819_rssi_for: the loudest station at the tuned frequency. */
    method RssiFor() returns (best: Word)
      requires Core().Valid()
      ensures best == Level(Core())
      ensures Loudest(stations, Tuned(Core()), if Tuned(Core()) == 0 then 0 else |stations|, best)
    {
      var tuned := regs[FREQ_HIGH] as nat * 0x1_0000 + regs[FREQ_LOW];
      best := 0x8c;
      if tuned == 0 {
        return;
      }
      for i := 0 to |stations|
        invariant best == Strongest(stations, tuned, i)
      {
        var centre := stations[i].hz10;
        var offset := if tuned > centre then tuned - centre else centre - tuned;
        var fade := offset / 1250 * 0x30;
        if fade >= stations[i].peak {
          continue;
        }
        var level: Word := stations[i].peak - fade;
        if level > best {
          best := level;
        }
      }
      StrongestIsLoudest(stations, tuned, |stations|);
    }

    /** bk4819_eval_receiver */
    method EvalReceiver()
      requires Core().Valid()
      modifies regs, `pending, `squelchOpen, `tick
      ensures Core() == Eval(old(Core()))
      ensures squelchOpen <==> Audible(old(Core()))
    {
      ghost var c := Core();
      OpensExactly(c);
      var base := RssiFor();
      tick := (tick + 1) % WORD32;
      var rssi: Word := (base + tick * 7 % 8) % 0x1_0000;
      regs[RSSI] := rssi;
      regs[AUDIO_AMP] := 0x400 + tick * 23 % 0x800;
      if !Bit(regs[RX_ENABLE], 0) {
        squelchOpen := false;
        return;
      }
      if !Bit(regs[INT_ENABLE], LOST) {
        squelchOpen := false;
        return;
      }
      var openThresh := regs[RSSI_THRESH] / 0x100 * 2;
      var mayAnnounce := tick % 64 == 0;
      if mayAnnounce && openThresh != 0 && rssi >= openThresh {
        pending := SetFlag(pending, LOST);
        squelchOpen := true;
      } else if squelchOpen {
        pending := SetFlag(pending, FOUND);
        squelchOpen := false;
      }
      if pending != 0 {
        regs[INTERRUPT] := SetFlag(regs[INTERRUPT], 0);
      }
    }

    method UpdateSda()
      modifies `sdaIn
      ensures sdaIn == if cs && reading then shiftOut >= 0x8000 else old(sdaIn)
    {
      if cs && reading {
        sdaIn := shiftOut >= 0x8000;
      }
    }

    /** bk4819_set_cs */
    method SetCs(level: bool)
      requires Valid()
      modifies this
      ensures Valid() && Pins() == B.SetCs(old(Pins()), level)
    {
      var selected := !level;
      if !selected && cs {
        bitCount, shiftIn, haveCmd, reading, skipFalling := 0, 0, false, false, false;
      }
      cs := selected;
    }

    /** The register to be read is latched and its top bit driven; the edge that ends the
        command byte is not to count. */
    method PresentRegister()
      requires Core().Valid() && cs && reading && cmd < REGS
      modifies regs, `pending, `squelchOpen, `tick, `shiftOut, `skipFalling, `sdaIn
      ensures (Core(), shiftOut) == ReadReg(old(Core()), cmd)
      ensures skipFalling && sdaIn == (shiftOut >= 0x8000)
    {
      if cmd == INTERRUPT {
        EvalReceiver();
      }
      shiftOut := regs[cmd];
      skipFalling := true;
      UpdateSda();
    }

    /** The eighth command bit: which register, and which way. */
    method LatchCommand(w: nat)
      requires Core().Valid() && cs
      modifies this, regs
      ensures var p := old(Pins()).(reading := w / 128 % 2 == 1, cmd := w % 128, haveCmd := true, bitCount := 0,
                                    shiftIn := 0);
              Pins() == if p.reading then
                          var (core, value) := ReadReg(p.core, p.cmd);
                          p.(core := core, shiftOut := value, skipFalling := true, line := value >= 0x8000)
                        else p
    {
      reading := w / 128 % 2 == 1;
      cmd := w % 128;
      haveCmd, bitCount, shiftIn := true, 0, 0;
      if reading {
        PresentRegister();
      }
    }

    /** The sixteenth data bit: the register is written. */
    method LatchData(data: Word)
      requires Core().Valid() && cmd < REGS
      modifies regs, `pending
      ensures Core() == WriteReg(old(Core()), cmd, data)
    {
      regs[cmd] := data;
      if cmd == REVISION && data >= 0x8000 {
        SeedMeasurements();
      }
      if cmd == INT_FLAGS {
        regs[INT_FLAGS] := pending;
        pending := 0;
        regs[INTERRUPT] := ClearFlag(regs[INTERRUPT], 0);
      }
    }

    method Rise()
      requires Valid() && cs
      modifies this, regs
      ensures Valid() && Pins() == B.Rising(old(Pins()))
    {
      if !haveCmd {
        shiftIn := (shiftIn * 2 + (if sdaOut then 1 else 0)) % WORD32;
        if bitCount + 1 == 8 {
          LatchCommand(shiftIn);
        } else {
          bitCount := bitCount + 1;
        }
      } else if !reading {
        shiftIn := (shiftIn * 2 + (if sdaOut then 1 else 0)) % WORD32;
        if bitCount + 1 == 16 {
          LatchData(shiftIn % 0x1_0000);
          bitCount, shiftIn, haveCmd := 0, 0, false;
        } else {
          bitCount := bitCount + 1;
        }
      }
    }

    method Fall()
      requires Valid() && cs
      modifies this
      ensures Valid() && Pins() == B.Falling(old(Pins()))
    {
      if skipFalling {
        skipFalling := false;
      } else if haveCmd && reading {
        shiftOut := shiftOut * 2 % 0x1_0000;
        UpdateSda();
        if bitCount + 1 >= 16 {
          bitCount, haveCmd, reading := 0, false, false;
        } else {
          bitCount := bitCount + 1;
        }
      }
    }

    /** bk4819_set_scl */
    method SetScl(level: bool)
      requires Valid()
      modifies this, regs
      ensures Valid() && Pins() == B.SetScl(old(Pins()), level)
    {
      var rising, falling := level && !scl, !level && scl;
      scl := level;
      if !cs {
        return;
      }
      if rising {
        Rise();
      }
      if falling {
        Fall();
      }
    }

    method SetSda(level: bool)
      requires Valid()
      modifies `sdaOut
      ensures Valid() && Pins() == old(Pins()).(sda := level)
    {
      sdaOut := level;
    }
  }
}
