/** What a DMA transfer sends to the flash and what it collects from it. */
module Transfers {
  import opened Bits
  import opened Dma
  import N = Nor
  import F = NorFrames

  // ------------------------------------------------ what a transfer sends and collects

  /** The bytes the transfer puts on the bus, in order. */
  function Sent(c: N.Chip, ram: seq<Byte>, tx: Port, rx: Port, k: nat): (r: seq<Byte>)
    requires c.Valid()
    ensures |r| == k
  {
    if k == 0 then []
    else
      var m := Clocked(c, ram, tx, rx, k - 1).1;
      Sent(c, ram, tx, rx, k - 1) + [if tx.Off? then 0xff else Load(m, tx.At(k - 1))]
  }

  /** A transfer of k bytes clocks exactly k bytes. */
  lemma {:induction false} ClockedSends(c: N.Chip, ram: seq<Byte>, tx: Port, rx: Port, k: nat)
    requires c.Valid()
    ensures Clocked(c, ram, tx, rx, k).0 == N.XferAll(c, Sent(c, ram, tx, rx, k))
  {
    if k > 0 {
      ClockedSends(c, ram, tx, rx, k - 1);
      var s := Sent(c, ram, tx, rx, k);
      assert s[..k - 1] == Sent(c, ram, tx, rx, k - 1);
    }
  }

  predicate InSram(a: nat, n: nat) { SRAM_BASE <= a && a + n <= SRAM_BASE + SRAM_SIZE }

  function Slice(ram: seq<Byte>, a: nat, n: nat): (r: seq<Byte>)
    requires |ram| == SRAM_SIZE && InSram(a, n)
    ensures |r| == n
  {
    ram[a - SRAM_BASE..a - SRAM_BASE + n]
  }

  /** ram with the bytes from address a on replaced by bs. */
  function Replaced(ram: seq<Byte>, a: nat, bs: seq<Byte>): (r: seq<Byte>)
    requires |ram| == SRAM_SIZE && InSram(a, |bs|)
    ensures |r| == SRAM_SIZE
  {
    seq(SRAM_SIZE, i requires 0 <= i < SRAM_SIZE =>
      if a <= i + SRAM_BASE < a + |bs| then bs[i + SRAM_BASE - a] else ram[i])
  }

  /** The k bytes the flash delivers from address a on, around the end of the array. */
  function Stream(data: seq<Byte>, a: nat, k: nat): (r: seq<Byte>)
    requires |data| == N.SIZE
    ensures |r| == k
  {
    seq(k, i requires 0 <= i < k => data[(a + i) % N.SIZE])
  }

  /** One more byte of a transfer. */
  lemma ClockOne(c: N.Chip, ram: seq<Byte>, tx: Port, rx: Port, k: nat)
    requires c.Valid()
    ensures var (d, m) := Clocked(c, ram, tx, rx, k);
            var out := if tx.Off? then 0xff else Load(m, tx.At(k));
            && Sent(c, ram, tx, rx, k + 1) == Sent(c, ram, tx, rx, k) + [out]
            && Clocked(c, ram, tx, rx, k + 1) ==
                 (N.Xfer(d, out).0, if rx.Off? then m else Put(m, rx.At(k), N.Xfer(d, out).1))
  {
  }

  /** During a read the device stays in the command, whatever is sent. */
  lemma {:induction false} ReadGoesOn(c: N.Chip, f: F.Flash, args: seq<Byte>, ram: seq<Byte>, tx: Port, rx: Port,
                                      k: nat)
    requires f.Valid() && F.InCommand(c, f, N.READ, args) && |args| + k < WORD32
    ensures F.InCommand(Clocked(c, ram, tx, rx, k).0, f, N.READ, args + Sent(c, ram, tx, rx, k))
    decreases k
  {
    if k == 0 {
      assert args + Sent(c, ram, tx, rx, 0) == args;
    } else {
      ReadGoesOn(c, f, args, ram, tx, rx, k - 1);
      ClockOne(c, ram, tx, rx, k - 1);
      var before, now := Sent(c, ram, tx, rx, k - 1), Sent(c, ram, tx, rx, k);
      F.ReadStep(Clocked(c, ram, tx, rx, k - 1).0, f, args + before, now[k - 1]);
      assert args + now == args + before + [now[k - 1]];
    }
  }

  /** The reply to byte k of a transfer. */
  function Received(c: N.Chip, ram: seq<Byte>, tx: Port, rx: Port, k: nat): Byte
    requires c.Valid()
  {
    var (d, m) := Clocked(c, ram, tx, rx, k);
    N.Xfer(d, if tx.Off? then 0xff else Load(m, tx.At(k))).1
  }

  /** Byte k of a read transfer is byte k of the flash's stream. */
  lemma ReadReply(c: N.Chip, f: F.Flash, args: seq<Byte>, ram: seq<Byte>, tx: Port, rx: Port, k: nat)
    requires f.Valid() && F.InCommand(c, f, N.READ, args) && |args| == 3 && k + 4 < WORD32
    ensures Received(c, ram, tx, rx, k) == f.data[(F.BigEndian(args) + k) % N.SIZE]
  {
    var (d, m) := Clocked(c, ram, tx, rx, k);
    var before := Sent(c, ram, tx, rx, k);
    ReadGoesOn(c, f, args, ram, tx, rx, k);
    F.ReadStep(d, f, args + before, if tx.Off? then 0xff else Load(m, tx.At(k)));
    assert (args + before)[..3] == args;
  }

  lemma OneMoreReceived(c: N.Chip, ram: seq<Byte>, tx: Port, dest: nat, k: nat)
    requires c.Valid() && InSram(dest, k + 1)
    ensures Clocked(c, ram, tx, On(dest, true), k + 1).1 ==
            Put(Clocked(c, ram, tx, On(dest, true), k).1, dest + k, Received(c, ram, tx, On(dest, true), k))
  {
    ClockOne(c, ram, tx, On(dest, true), k);
    InRange(dest, k);
  }

  lemma PutCell(m: seq<Byte>, a: nat, b: Byte, i: nat)
    requires InSram(a, 1) && |m| == SRAM_SIZE && i < SRAM_SIZE
    ensures Put(m, a, b)[i] == if i + SRAM_BASE == a then b else m[i]
  {
  }

  lemma {:induction false} ReceivedByte(c: N.Chip, ram: seq<Byte>, tx: Port, dest: nat, k: nat, i: nat)
    requires c.Valid() && |ram| == SRAM_SIZE && InSram(dest, k) && i < SRAM_SIZE
    ensures Clocked(c, ram, tx, On(dest, true), k).1[i] ==
            if dest <= i + SRAM_BASE < dest + k
            then Received(c, ram, tx, On(dest, true), i + SRAM_BASE - dest) else ram[i]
    decreases k
  {
    if k > 0 {
      ReceivedByte(c, ram, tx, dest, k - 1, i);
      OneMoreReceived(c, ram, tx, dest, k - 1);
      PutCell(Clocked(c, ram, tx, On(dest, true), k - 1).1, dest + k - 1,
              Received(c, ram, tx, On(dest, true), k - 1), i);
    }
  }

  /** Duplex read: memory receives the flash's consecutive bytes whatever is sent meanwhile. */
  lemma ReadTransfer(c: N.Chip, f: F.Flash, args: seq<Byte>, ram: seq<Byte>, tx: Port, dest: nat, k: nat)
    requires f.Valid() && F.InCommand(c, f, N.READ, args) && |args| == 3
    requires |ram| == SRAM_SIZE && InSram(dest, k)
    ensures Clocked(c, ram, tx, On(dest, true), k).1 ==
            Replaced(ram, dest, Stream(f.data, F.BigEndian(args), k))
  {
    var m := Clocked(c, ram, tx, On(dest, true), k).1;
    var a := F.BigEndian(args);
    forall i | 0 <= i < SRAM_SIZE
      ensures m[i] == if dest <= i + SRAM_BASE < dest + k then f.data[(a + (i + SRAM_BASE - dest)) % N.SIZE] else ram[i]
    {
      CellAfterRead(c, f, args, ram, tx, dest, k, i);
    }
    ReceivedStream(m, ram, dest, f.data, a, k);
  }

  lemma CellAfterRead(c: N.Chip, f: F.Flash, args: seq<Byte>, ram: seq<Byte>, tx: Port, dest: nat, k: nat, i: nat)
    requires f.Valid() && F.InCommand(c, f, N.READ, args) && |args| == 3
    requires |ram| == SRAM_SIZE && InSram(dest, k) && i < SRAM_SIZE
    ensures Clocked(c, ram, tx, On(dest, true), k).1[i] ==
            if dest <= i + SRAM_BASE < dest + k then f.data[(F.BigEndian(args) + (i + SRAM_BASE - dest)) % N.SIZE]
            else ram[i]
  {
    ReceivedByte(c, ram, tx, dest, k, i);
    if dest <= i + SRAM_BASE < dest + k {
      ReadReply(c, f, args, ram, tx, On(dest, true), i + SRAM_BASE - dest);
    }
  }

  lemma ReceivedStream(m: seq<Byte>, ram: seq<Byte>, dest: nat, data: seq<Byte>, a: nat, k: nat)
    requires |ram| == |m| == SRAM_SIZE && InSram(dest, k) && |data| == N.SIZE
    requires forall i :: 0 <= i < SRAM_SIZE ==>
               m[i] == if dest <= i + SRAM_BASE < dest + k then data[(a + (i + SRAM_BASE - dest)) % N.SIZE] else ram[i]
    ensures m == Replaced(ram, dest, Stream(data, a, k))
  {
  }

  lemma InRange(a: nat, k: nat)
    requires InSram(a, k + 1)
    ensures On(a, true).At(k) == a + k
  {
  }

  /** Collecting the replies at one address leaves the rest of memory alone. */
  lemma {:induction false} DummyReceive(c: N.Chip, ram: seq<Byte>, tx: Port, dummy: nat, k: nat, i: nat)
    requires c.Valid() && |ram| == SRAM_SIZE && i < SRAM_SIZE && i + SRAM_BASE != dummy
    ensures Clocked(c, ram, tx, On(dummy, false), k).1[i] == ram[i]
    decreases k
  {
    if k > 0 {
      DummyReceive(c, ram, tx, dummy, k - 1, i);
      ClockOne(c, ram, tx, On(dummy, false), k - 1);
    }
  }

  lemma {:induction false} SentByte(c: N.Chip, ram: seq<Byte>, tx: Port, rx: Port, k: nat, i: nat)
    requires c.Valid() && i < k && tx.On?
    ensures Sent(c, ram, tx, rx, k)[i] == Load(Clocked(c, ram, tx, rx, i).1, tx.At(i))
  {
    if i < k - 1 {
      SentByte(c, ram, tx, rx, k - 1, i);
    }
  }

  /** Write-back: what is sent is the source buffer, as long as the dummy receive address is
      outside it. */
  lemma WriteTransfer(c: N.Chip, ram: seq<Byte>, src: nat, dummy: nat, n: nat)
    requires c.Valid() && |ram| == SRAM_SIZE && InSram(src, n)
    requires !(src <= dummy < src + n)
    ensures Sent(c, ram, On(src, true), On(dummy, false), n) == Slice(ram, src, n)
  {
    var sent := Sent(c, ram, On(src, true), On(dummy, false), n);
    forall i | 0 <= i < n
      ensures sent[i] == ram[src - SRAM_BASE + i]
    {
      SentFromSource(c, ram, src, dummy, n, i);
    }
  }

  lemma SourceKept(c: N.Chip, ram: seq<Byte>, src: nat, dummy: nat, n: nat, i: nat)
    requires c.Valid() && |ram| == SRAM_SIZE && InSram(src, n) && i < n
    requires !(src <= dummy < src + n)
    ensures Load(Clocked(c, ram, On(src, true), On(dummy, false), i).1, src + i) == ram[src - SRAM_BASE + i]
  {
    DummyReceive(c, ram, On(src, true), dummy, i, src + i - SRAM_BASE);
    LoadInside(Clocked(c, ram, On(src, true), On(dummy, false), i).1, src + i);
  }

  lemma SentFromSource(c: N.Chip, ram: seq<Byte>, src: nat, dummy: nat, n: nat, i: nat)
    requires c.Valid() && |ram| == SRAM_SIZE && InSram(src, n) && i < n
    requires !(src <= dummy < src + n)
    ensures Sent(c, ram, On(src, true), On(dummy, false), n)[i] == ram[src - SRAM_BASE + i]
  {
    SentByte(c, ram, On(src, true), On(dummy, false), n, i);
    InRange(src, i);
    SourceKept(c, ram, src, dummy, n, i);
  }

  lemma LoadInside(ram: seq<Byte>, a: nat)
    requires |ram| == SRAM_SIZE && InSram(a, 1)
    ensures Load(ram, a) == ram[a - SRAM_BASE]
  {
  }
}
