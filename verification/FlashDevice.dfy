/** The flash chip as the emulator keeps it, changed in place by callbacks. */
module FlashDevice {
  import opened Bits
  import opened Wrappers
  import N = Nor
  import W = WriteBack

  class Py25q16 {
    const data: array<Byte>
    const hasPath: bool
    var file: Option<seq<Byte>>
    var selected: bool
    var cmd: Byte
    var addr: nat
    var phase: nat
    var writeEnabled: bool
    var dirty: bool
    var dirtyLo: nat
    var dirtyHi: nat

    ghost function Chip(): N.Chip
      reads this, data
    {
      N.Chip(data[..], selected, cmd, addr, phase, writeEnabled, dirty, dirtyLo, dirtyHi)
    }

    ghost function Store(): W.Store
      reads this, data
    {
      W.Store(Chip(), hasPath, file)
    }

    ghost predicate Valid()
      reads this, data
    {
      data.Length == N.SIZE && W.Sound(Store())
    }

    constructor Realize(hasPath: bool, image: Option<seq<Byte>>)
      ensures fresh(data) && Valid() && Store() == W.Load(hasPath, image)
    {
      this.hasPath := hasPath;
      file := image;
      selected, cmd, addr, phase, writeEnabled := false, N.NONE, 0, 0, false;
      dirty, dirtyLo, dirtyHi := false, 0, 0;
      data := new Byte[N.SIZE](i => 0xff);
      new;
      if hasPath && image.Some? {
        forall i | 0 <= i < N.SIZE && i < |image.value| { data[i] := image.value[i]; }
      }
      ghost var bytes := if hasPath && image.Some? then image.value else [];
      assert forall i :: 0 <= i < N.SIZE ==> data[i] == W.At(bytes, i);
      assert data[..] == W.Load(hasPath, image).chip.data;
    }

    method MarkDirty(at: nat, len: nat)
      requires data.Length == N.SIZE
      modifies `dirty, `dirtyLo, `dirtyHi
      ensures Chip() == N.MarkDirty(old(Chip()), at, len)
    {
      var a, n := at, len;
      if a >= N.SIZE {
        a := a % N.SIZE;
      }
      if n > N.SIZE {
        n := N.SIZE;
      }
      if a + n > N.SIZE {
        n := N.SIZE - a;
      }
      if !dirty || a < dirtyLo {
        dirtyLo := a;
      }
      if !dirty || a + n > dirtyHi {
        dirtyHi := a + n;
      }
      dirty := true;
    }

    method ProgramByte(out: Byte)
      requires data.Length == N.SIZE
      modifies this, data
      ensures unchanged(`file)
      ensures var c, at := old(Chip()), old(addr) % N.SIZE;
              Chip() == N.MarkDirty(c.(data := c.data[at := And(c.data[at], out)]), at, 1)
    {
      var at := addr % N.SIZE;
      data[at] := And(data[at], out);
      MarkDirty(at, 1);
    }

    method EraseSector()
      requires data.Length == N.SIZE
      modifies this, data
      ensures unchanged(`file)
      ensures var c, at := old(Chip()), old(addr) / N.SECTOR * N.SECTOR % N.SIZE;
              Chip() == N.MarkDirty(c.(data := N.Filled(c.data, at, at + N.SECTOR, 0xff)), at, N.SECTOR)
    {
      N.SectorFits(addr);
      var at := addr / N.SECTOR * N.SECTOR % N.SIZE;
      forall i | at <= i < at + N.SECTOR { data[i] := 0xff; }
      assert data[..] == N.Filled(old(data[..]), at, at + N.SECTOR, 0xff);
      MarkDirty(at, N.SECTOR);
    }

    /** py25q16_xfer */
    method Xfer(out: Byte) returns (reply: Byte)
      requires Valid()
      modifies this, data
      ensures Valid() && unchanged(`file)
      ensures (Chip(), reply) == N.Xfer(old(Chip()), out)
    {
      N.XferKeepsValid(Chip(), out);
      W.XferKeepsSound(Store(), out);
      reply := 0xff;
      if !selected {
        return;
      }
      if cmd == N.NONE {
        cmd, phase, addr := out, 0, 0;
        if cmd == N.WREN {
          writeEnabled, cmd := true, N.NONE;
        } else if cmd == N.WRDI {
          writeEnabled, cmd := false, N.NONE;
        }
        return;
      }
      reply := Argument(out);
    }

    /** A byte after the opcode. */
    method Argument(out: Byte) returns (reply: Byte)
      requires Chip().Valid() && selected && cmd != N.NONE
      modifies this, data
      ensures unchanged(`file)
      ensures (Chip(), reply) == N.Xfer(old(Chip()), out)
    {
      phase := (phase + 1) % WORD32;
      reply := 0xff;
      match cmd
      case 0x03 =>
        if phase <= 3 {
          addr := N.ShiftAddr(addr, out);
        } else {
          reply := data[addr % N.SIZE];
          addr := (addr + 1) % WORD32;
        }
      case 0x02 =>
        if phase <= 3 {
          addr := N.ShiftAddr(addr, out);
        } else {
          if writeEnabled {
            ProgramByte(out);
          }
          addr := N.NextInPage(addr);
        }
      case 0x20 =>
        if phase <= 3 {
          addr := N.ShiftAddr(addr, out);
          if phase == 3 && writeEnabled {
            EraseSector();
          }
        }
      case 0x05 =>
        reply := if writeEnabled then 0x02 else 0x00;
      case 0x9f =>
        reply := if phase == 1 then 0x85 else if phase == 2 then 0x60 else if phase == 3 then 0x15 else 0xff;
      case _ =>
    }

    /** py25q16_flush; the host's answers are in io. */
    method Flush(io: W.Io)
      requires data.Length == N.SIZE && Chip().Valid()
      modifies this
      ensures Store() == W.Flush(old(Store()), io)
    {
      if !dirty || !hasPath {
        return;
      }
      if file.Some? && io.opens {
        file := Some(W.Overlay(file.value, data[..], dirtyLo, dirtyHi, io));
        if io.wrote {
          dirty, dirtyLo, dirtyHi := false, 0, 0;
        }
        return;
      }
      if !io.tmpOpens || !io.tmpWrites || !io.renames {
        return;
      }
      file := Some(if io.tmpCloses then data[..] else io.torn);
      dirty := false;
    }

    /** py25q16_set_cs */
    method SetCs(level: bool, io: W.Io)
      requires Valid()
      modifies this
      ensures Valid()
      ensures Store() == if level then W.Release(old(Store()), io)
                         else old(Store()).(chip := N.Select(old(Chip())))
    {
      W.StepKeepsSound(Store(), if level then W.Raised(io) else W.Lowered);
      if !selected && !level {
        cmd, phase := N.NONE, 0;
      }
      if selected && level {
        cmd, phase := N.NONE, 0;
        Flush(io);
      }
      selected := !level;
    }

    /** py25q16_exit_notify */
    method ExitNotify(io: W.Io)
      requires Valid()
      modifies this
      ensures Valid()
      ensures Store() == W.Exit(old(Store()), io)
    {
      W.StepKeepsSound(Store(), W.Quit(io));
      if dirty {
        dirtyLo, dirtyHi := 0, N.SIZE;
      }
      Flush(io);
    }
  }
}
