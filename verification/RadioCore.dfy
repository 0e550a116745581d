/** The BK4819's register file, receiver and interrupt flags. */
module RadioCore {
  import opened Bits

  const REGS: nat := 128
  const REVISION: nat := 0x00
  const INT_FLAGS: nat := 0x02
  const INTERRUPT: nat := 0x0c
  const RX_ENABLE: nat := 0x30
  const FREQ_LOW: nat := 0x38
  const FREQ_HIGH: nat := 0x39
  const INT_ENABLE: nat := 0x3f
  const GLITCH: nat := 0x63
  const AUDIO_AMP: nat := 0x64
  const NOISE: nat := 0x65
  const RSSI: nat := 0x67
  const RSSI_THRESH: nat := 0x78

  // Bit numbers of the interrupt flags.
  const LOST: nat := 2
  const FOUND: nat := 3

  type Word = w: nat | w < 0x1_0000 witness 0

  /** A transmitter: its frequency in tens of hertz, and its strength at that frequency. */
  datatype Station = Station(hz10: nat, peak: Word)

  datatype Core = Core(regs: seq<Word>, pending: Word, squelchOpen: bool, tick: nat, stations: seq<Station>)
  {
    ghost predicate Valid() { |regs| == REGS && tick < WORD32 }
  }

  function Tuned(c: Core): nat
    requires c.Valid()
  {
    c.regs[FREQ_HIGH] as nat * 0x1_0000 + c.regs[FREQ_LOW]
  }

  /** What one station contributes at a frequency, or nothing once it has faded out. */
  function Faded(s: Station, tuned: nat): Word
  {
    var offset := if tuned > s.hz10 then tuned - s.hz10 else s.hz10 - tuned;
    var fade := offset / 1250 * 0x30;
    if fade >= s.peak then 0 else s.peak - fade
  }

  /** The strongest of the first n stations, over the noise floor. */
  function Strongest(stations: seq<Station>, tuned: nat, n: nat): Word
    requires n <= |stations|
  {
    if n == 0 then 0x8c
    else
      var best := Strongest(stations, tuned, n - 1);
      var level := Faded(stations[n - 1], tuned);
      if level > best then level else best
  }

  /** The greatest of the floor and what each of the first n stations contributes. */
  predicate Loudest(stations: seq<Station>, tuned: nat, n: nat, level: Word)
    requires n <= |stations|
  {
    && level >= 0x8c && (forall i :: 0 <= i < n ==> level >= Faded(stations[i], tuned))
    && (level == 0x8c || exists i :: 0 <= i < n && level == Faded(stations[i], tuned))
  }

  lemma {:induction false} StrongestIsLoudest(stations: seq<Station>, tuned: nat, n: nat)
    requires n <= |stations|
    ensures Loudest(stations, tuned, n, Strongest(stations, tuned, n))
  {
    if n > 0 {
      StrongestIsLoudest(stations, tuned, n - 1);
      var best, level := Strongest(stations, tuned, n - 1), Faded(stations[n - 1], tuned);
      if best >= level && best != 0x8c {
        var i :| 0 <= i < n - 1 && best == Faded(stations[i], tuned);
      }
    }
  }

  function Level(c: Core): Word
    requires c.Valid()
  {
    if Tuned(c) == 0 then 0x8c else Strongest(c.stations, Tuned(c), |c.stations|)
  }

  /** The receiver is awake and the squelch interrupt is wanted. */
  predicate Listening(c: Core)
    requires c.Valid()
  {
    Bit(c.regs[RX_ENABLE], 0) && Bit(c.regs[INT_ENABLE], LOST)
  }

  /** The strength the next evaluation will report. */
  function NextRssi(c: Core): Word
    requires c.Valid()
  {
    (Level(c) + (c.tick + 1) % WORD32 * 7 % 8) % 0x1_0000
  }

  /** The next evaluation announces an open squelch: only every 64th may. */
  predicate Announces(c: Core)
    requires c.Valid()
  {
    var thresh := c.regs[RSSI_THRESH] / 0x100 * 2;
    Listening(c) && (c.tick + 1) % WORD32 % 64 == 0 && thresh != 0 && NextRssi(c) >= thresh
  }

  /** The next evaluation reports that the squelch closed again. */
  predicate Closes(c: Core)
    requires c.Valid()
  {
    Listening(c) && !Announces(c) && c.squelchOpen
  }

  /** bk4819_eval_receiver */
  function Eval(c: Core): (r: Core)
    requires c.Valid()
    ensures r.Valid()
  {
    var t := (c.tick + 1) % WORD32;
    var metered := c.regs[RSSI := NextRssi(c)][AUDIO_AMP := 0x400 + t * 23 % 0x800];
    if !Listening(c) then c.(tick := t, regs := metered, squelchOpen := false)
    else
      var p: Word :=
        if Announces(c) then SetFlag(c.pending, LOST)
        else if c.squelchOpen then SetFlag(c.pending, FOUND)
        else c.pending;
      c.(tick := t, pending := p, squelchOpen := Announces(c),
         regs := if p != 0 then metered[INTERRUPT := SetFlag(metered[INTERRUPT], 0)] else metered)
  }

  function SetFlag(w: Word, k: nat): Word
    requires k < 16
  {
    WordWidth(w, k, true);
    WithBit(w, k, true)
  }

  function ClearFlag(w: Word, k: nat): Word
    requires k < 16
  {
    WordWidth(w, k, false);
    WithBit(w, k, false)
  }

  lemma WordWidth(w: Word, k: nat, on: bool)
    requires k < 16
    ensures WithBit(w, k, on) < 0x1_0000
  {
    assert Pow2(4) == 16;
    assert Pow2(8) == 256;
    assert Pow2(12) == 4096;
    assert Pow2(16) == 0x1_0000;
    WithBitBound(w, k, on, 16);
  }

  /** bk4819_seed_measurements */
  function Seed(regs: seq<Word>): (r: seq<Word>)
    requires |regs| == REGS
    ensures |r| == REGS
  {
    regs[INTERRUPT := 0][RSSI := 0x1e0][GLITCH := 0x10][NOISE := 0x10]
  }

  function Reset(stations: seq<Station>): (r: Core)
    ensures r.Valid()
  {
    Core(Seed(seq(REGS, i => 0)), 0, false, 0, stations)
  }

  /** A whole-register read: the meters are refreshed when REG_0C is polled. */
  function ReadReg(c: Core, r: nat): (res: (Core, Word))
    requires c.Valid() && r < REGS
    ensures res.0.Valid()
  {
    var d := if r == INTERRUPT then Eval(c) else c;
    (d, d.regs[r])
  }

  /** A whole-register write. Bit 15 of REG_00 re-seeds the measurements; writing REG_02
      acknowledges: the pending flags move into it and the request drops. */
  function WriteReg(c: Core, r: nat, v: Word): (res: Core)
    requires c.Valid() && r < REGS
    ensures res.Valid()
  {
    var d := c.(regs := c.regs[r := v]);
    if r == REVISION && v >= 0x8000 then d.(regs := Seed(d.regs))
    else if r == INT_FLAGS then
      d.(pending := 0,
         regs := d.regs[INT_FLAGS := d.pending][INTERRUPT := ClearFlag(d.regs[INTERRUPT], 0)])
    else d
  }

  // ------------------------------------------------ the collection loop drains

  /** The loop condition of the firmware: poll REG_0C and look at its bit 0. */
  function Poll(c: Core): (res: (Core, bool))
    requires c.Valid()
    ensures res.0.Valid()
  {
    var (d, w) := ReadReg(c, INTERRUPT);
    (d, Bit(w, 0))
  }

  /** The loop body: acknowledge, then collect the flags. */
  function Acknowledge(c: Core): (res: (Core, Word))
    requires c.Valid()
    ensures res.0.Valid()
  {
    ReadReg(WriteReg(c, INT_FLAGS, 0), INT_FLAGS)
  }

  /** Nothing is waiting and the request bit is down. */
  predicate Drained(c: Core)
    requires c.Valid()
  {
    c.pending == 0 && !Bit(c.regs[INTERRUPT], 0)
  }

  lemma FlagBits(w: Word, k: nat, j: nat)
    requires k < 16
    ensures Bit(SetFlag(w, k), j) == (j == k || Bit(w, j))
    ensures Bit(ClearFlag(w, k), j) == (j != k && Bit(w, j))
  {
    WithBitBits(w, k, true, j);
    WithBitBits(w, k, false, j);
  }

  lemma AcknowledgeDrains(c: Core)
    requires c.Valid()
    ensures Drained(Acknowledge(c).0) && Acknowledge(c).1 == c.pending
    ensures Acknowledge(c).0.squelchOpen == c.squelchOpen && Acknowledge(c).0.tick == c.tick
  {
    FlagBits(c.regs[INTERRUPT], 0, 0);
  }

  /** From a drained chip a poll raises the request only by announcing or by closing. */
  lemma PollFromDrained(c: Core)
    requires c.Valid() && Drained(c)
    ensures Poll(c).1 <==> Announces(c) || Closes(c)
    ensures !Poll(c).1 ==> Drained(Poll(c).0)
  {
    FlagBits(c.pending, LOST, LOST);
    FlagBits(c.pending, FOUND, FOUND);
    ZeroBit(LOST);
    ZeroBit(FOUND);
    FlagBits(c.regs[INTERRUPT], 0, 0);
  }

  /** After an evaluation, an open squelch means the tick is a multiple of 64. */
  lemma OpenOnlyOnTheBeat(c: Core)
    requires c.Valid()
    ensures Eval(c).squelchOpen ==> Eval(c).tick % 64 == 0
    ensures Eval(c).tick % 64 == (c.tick + 1) % 64
  {
  }

  /** The state when the loop condition is tested the (n+1)st time, the loop having run n bodies. */
  function Looped(c: Core, n: nat): (res: Core)
    requires c.Valid()
    ensures res.Valid()
  {
    if n == 0 then Poll(c).0 else Poll(Acknowledge(Looped(c, n - 1)).0).0
  }

  /** The loop stops at its (n+1)st test. */
  predicate Exits(c: Core, n: nat)
    requires c.Valid()
  {
    !(if n == 0 then Poll(c).1 else Poll(Acknowledge(Looped(c, n - 1)).0).1)
  }

  /** What one turn of the loop, from b to a, has to do with the beat. */
  predicate TurnFacts(b: Core, a: Core, again: bool)
  {
    && (a.squelchOpen ==> a.tick % 64 == 0) && a.tick % 64 == (b.tick + 1) % 64
    && (again ==> a.tick % 64 == 0 || b.squelchOpen)
  }

  /** One turn of the loop: body, then test. */
  lemma Turn(c: Core, n: nat)
    requires c.Valid() && 0 < n
    ensures TurnFacts(Looped(c, n - 1), Looped(c, n), !Exits(c, n))
  {
    var b := Looped(c, n - 1);
    AcknowledgeDrains(b);
    PollFromDrained(Acknowledge(b).0);
    OpenOnlyOnTheBeat(Acknowledge(b).0);
  }

  /** Ticks are consecutive, so of three turns in a row one finds neither the beat nor a squelch
      left open by it. */
  lemma OneTurnQuiet(c0: Core, c1: Core, c2: Core, c3: Core, again: seq<bool>)
    requires |again| == 3 && (c0.squelchOpen ==> c0.tick % 64 == 0)
    requires TurnFacts(c0, c1, again[0]) && TurnFacts(c1, c2, again[1]) && TurnFacts(c2, c3, again[2])
    ensures !again[0] || !again[1] || !again[2]
  {
    if c1.tick % 64 == 0 {
      assert c2.tick % 64 == 1 && c3.tick % 64 == 2;
    }
  }

  /** From any state whatever, the untimed loop runs its body at most three times. */
  lemma LoopDrains(c: Core)
    requires c.Valid()
    ensures Exits(c, 1) || Exits(c, 2) || Exits(c, 3)
  {
    OpenOnlyOnTheBeat(c);
    Turn(c, 1);
    Turn(c, 2);
    Turn(c, 3);
    OneTurnQuiet(Looped(c, 0), Looped(c, 1), Looped(c, 2), Looped(c, 3),
                 [!Exits(c, 1), !Exits(c, 2), !Exits(c, 3)]);
  }

  /** A receiver that always hears something: awake, wanted, the lowest threshold, and no station so strong that
      its level would wrap around. */
  ghost predicate Hearing(c: Core)
  {
    && c.Valid() && Listening(c) && c.regs[RSSI_THRESH] == 0x100
    && forall i :: 0 <= i < |c.stations| ==> c.stations[i].peak <= 0xfff8
  }

  lemma {:induction false} StrongestBound(stations: seq<Station>, tuned: nat, n: nat)
    requires n <= |stations| && forall i :: 0 <= i < |stations| ==> stations[i].peak <= 0xfff8
    ensures 0x8c <= Strongest(stations, tuned, n) <= 0xfff8
  {
    if n > 0 {
      StrongestBound(stations, tuned, n - 1);
    }
  }

  lemma HearingAnnounces(c: Core)
    requires Hearing(c)
    ensures Announces(c) <==> (c.tick + 1) % 64 == 0
  {
    StrongestBound(c.stations, Tuned(c), |c.stations|);
    BeatWraps(c.tick);
  }

  lemma BeatWraps(t: nat)
    requires t < WORD32
    ensures (t + 1) % WORD32 % 64 == (t + 1) % 64
  {
  }

  lemma StillHearing(c: Core)
    requires Hearing(c)
    ensures Hearing(Poll(c).0) && Hearing(Acknowledge(c).0)
  {
  }

  lemma PendingPolls(c: Core)
    requires Hearing(c) && c.pending != 0
    ensures Poll(c).1
  {
    FlagBits(c.pending, LOST, LOST);
    FlagBits(c.pending, FOUND, FOUND);
    ZeroBit(LOST);
    ZeroBit(FOUND);
    FlagBits(c.regs[INTERRUPT], 0, 0);
  }

  /** What one turn of the loop, from c to d, does while something is heard. */
  ghost predicate HeardTurn(c: Core, d: Core, again: bool)
  {
    && Hearing(d) && d.tick == (c.tick + 1) % WORD32
    && (again <==> (c.tick + 1) % 64 == 0 || c.squelchOpen)
    && ((c.tick + 1) % 64 == 0 ==> d.squelchOpen)
  }

  lemma HearingTurn(c: Core)
    requires Hearing(c)
    ensures HeardTurn(c, Poll(Acknowledge(c).0).0, Poll(Acknowledge(c).0).1)
  {
    AcknowledgeDrains(c);
    StillHearing(c);
    var a := Acknowledge(c).0;
    HearingAnnounces(a);
    PollFromDrained(a);
    StillHearing(a);
  }

  lemma BothTurns(d: Core, e: Core, f: Core, again: bool, more: bool)
    requires Hearing(d) && d.tick % 64 == 63 && HeardTurn(d, e, again) && HeardTurn(e, f, more)
    ensures again && more
  {
  }

  lemma NotExits(c: Core, d: Core, e: Core, n: nat)
    requires c.Valid() && n == 0 && d == Poll(c).0 && e == Poll(Acknowledge(d).0).0
    ensures Exits(c, n) <==> !Poll(c).1
    ensures Exits(c, n + 1) <==> !Poll(Acknowledge(d).0).1
    ensures Exits(c, n + 2) <==> !Poll(Acknowledge(e).0).1
  {
    assert Looped(c, n) == d;
    assert Looped(c, n + 1) == e;
  }

  /** Three is reached: flags waiting before the beat, an announcement on it, a close after it. */
  lemma LoopMayTakeThree(c: Core)
    requires Hearing(c) && c.pending != 0 && c.tick % 64 == 62
    ensures !Exits(c, 0) && !Exits(c, 1) && !Exits(c, 2)
  {
    GoesOn(c, 0);
  }

  lemma GoesOn(c: Core, n: nat)
    requires Hearing(c) && c.pending != 0 && c.tick % 64 == 62 && n == 0
    ensures !Exits(c, n) && !Exits(c, n + 1) && !Exits(c, n + 2)
  {
    PendingPolls(c);
    StillHearing(c);
    NextTick(c, Poll(c).0);
    GoesOnFrom(c, Poll(c).0, n);
  }

  lemma NextTick(c: Core, d: Core)
    requires c.Valid() && d == Poll(c).0 && c.tick % 64 == 62
    ensures d.tick % 64 == 63
  {
    BeatWraps(c.tick);
  }

  lemma GoesOnFrom(c: Core, d: Core, n: nat)
    requires c.Valid() && Poll(c) == (d, true) && n == 0 && Hearing(d) && d.tick % 64 == 63
    ensures !Exits(c, n) && !Exits(c, n + 1) && !Exits(c, n + 2)
  {
    FirstTurns(d);
    NotExits(c, d, Poll(Acknowledge(d).0).0, n);
  }

  lemma FirstTurns(d: Core)
    requires Hearing(d) && d.tick % 64 == 63
    ensures var (e, again) := Poll(Acknowledge(d).0);
            again && Hearing(e) && Poll(Acknowledge(e).0).1
  {
    HearingTurn(d);
    var (e, again) := Poll(Acknowledge(d).0);
    HearingTurn(e);
    var (f, more) := Poll(Acknowledge(e).0);
    BothTurns(d, e, f, again, more);
  }

  // ------------------------------------------------ what an acknowledgement hands over

  datatype Op = Read(reg: nat) | Write(reg: nat, value: Word)
  {
    predicate Valid() { reg < REGS }
  }

  function Apply(c: Core, op: Op): (r: Core)
    requires c.Valid() && op.Valid()
    ensures r.Valid()
  {
    match op
    case Read(r) => ReadReg(c, r).0
    case Write(r, v) => WriteReg(c, r, v)
  }

  function RunOps(c: Core, ops: seq<Op>): (r: Core)
    requires c.Valid() && forall op :: op in ops ==> op.Valid()
    ensures r.Valid()
  {
    if ops == [] then c else Apply(RunOps(c, ops[..|ops| - 1]), ops[|ops| - 1])
  }

  /** Step i of the run is a poll that raises the flag. */
  ghost predicate Raises(c: Core, ops: seq<Op>, i: nat, flag: nat)
    requires c.Valid() && (forall op :: op in ops ==> op.Valid()) && i < |ops|
  {
    var d := RunOps(c, ops[..i]);
    ops[i] == Read(INTERRUPT) && (if flag == LOST then Announces(d) else flag == FOUND && Closes(d))
  }

  lemma ApplyPending(c: Core, op: Op, k: nat)
    requires c.Valid() && op.Valid() && !(op.Write? && op.reg == INT_FLAGS)
    ensures Bit(Apply(c, op).pending, k) <==>
            Bit(c.pending, k) ||
            (op == Read(INTERRUPT) && (if k == LOST then Announces(c) else k == FOUND && Closes(c)))
  {
    FlagBits(c.pending, LOST, k);
    FlagBits(c.pending, FOUND, k);
  }

  /** Pending flags are exactly those raised since nothing was pending, if none was acknowledged. */
  lemma {:induction false} PendingIsRaised(c: Core, ops: seq<Op>, k: nat)
    requires c.Valid() && c.pending == 0 && forall op :: op in ops ==> op.Valid()
    requires forall op :: op in ops ==> !(op.Write? && op.reg == INT_FLAGS)
    ensures Bit(RunOps(c, ops).pending, k) <==> exists i :: 0 <= i < |ops| && Raises(c, ops, i, k)
    decreases |ops|
  {
    if ops == [] {
      ZeroBit(k);
    } else {
      var n := |ops| - 1;
      PendingIsRaised(c, ops[..n], k);
      ApplyPending(RunOps(c, ops[..n]), ops[n], k);
      RaisedEarlier(c, ops, n, k);
      assert Raises(c, ops, n, k) <==> Bit(RunOps(c, ops).pending, k) && Raises(c, ops, n, k);
    }
  }

  lemma RaisedEarlier(c: Core, ops: seq<Op>, n: nat, k: nat)
    requires c.Valid() && (forall op :: op in ops ==> op.Valid()) && n <= |ops|
    ensures forall i :: 0 <= i < n ==> Raises(c, ops[..n], i, k) == Raises(c, ops, i, k)
  {
    forall i | 0 <= i < n
      ensures Raises(c, ops[..n], i, k) == Raises(c, ops, i, k)
    {
      assert ops[..n][..i] == ops[..i];
    }
  }

  /** Each acknowledgement hands over exactly the flags raised since the one before, and REG_02
      then reads back as that word. */
  lemma HandsOverExactly(c: Core, ops: seq<Op>, k: nat)
    requires c.Valid() && c.pending == 0 && forall op :: op in ops ==> op.Valid()
    requires forall op :: op in ops ==> !(op.Write? && op.reg == INT_FLAGS)
    ensures var (d, flags) := Acknowledge(RunOps(c, ops));
            && (Bit(flags, k) <==> exists i :: 0 <= i < |ops| && Raises(c, ops, i, k))
            && d.pending == 0 && !Bit(d.regs[INTERRUPT], 0)
  {
    AcknowledgeDrains(RunOps(c, ops));
    PendingIsRaised(c, ops, k);
  }

  /** Whatever the guest reads and writes, an open squelch is only ever seen on the beat. */
  lemma {:induction false} OpenImpliesBeat(stations: seq<Station>, ops: seq<Op>)
    requires forall op :: op in ops ==> op.Valid()
    ensures var c := RunOps(Reset(stations), ops);
            c.squelchOpen ==> c.tick % 64 == 0
    decreases |ops|
  {
    if ops != [] {
      OpenImpliesBeat(stations, ops[..|ops| - 1]);
      OpenOnlyOnTheBeat(RunOps(Reset(stations), ops[..|ops| - 1]));
    }
  }

  // ------------------------------------------------ what a write, a read and a poll do, register by register

  /** What becomes of register j when v is written to r: bit 15 of REG_00 seeds four measurements, and REG_02 takes
      the pending flags and drops bit 0 of REG_0C. */
  ghost predicate Settled(c: Core, r: nat, v: Word, d: Core, j: nat)
    requires c.Valid() && d.Valid() && r < REGS && j < REGS
  {
    if r == 0x00 && v >= 0x8000 && (j == 0x0c || j == 0x63 || j == 0x65 || j == 0x67) then
      d.regs[j] == if j == 0x0c then 0 else if j == 0x67 then 0x1e0 else 0x10
    else if r == 0x02 && j == 0x02 then d.regs[j] == c.pending
    else if r == 0x02 && j == 0x0c then forall k: nat :: Bit(d.regs[j], k) <==> Bit(c.regs[j], k) && k != 0
    else d.regs[j] == if j == r then v else c.regs[j]
  }

  /** A write sets the register it names and no other, but for REG_00 and REG_02; only REG_02 clears the pending
      flags, and the receiver itself is left alone. */
  lemma WriteExactly(c: Core, r: nat, v: Word)
    requires c.Valid() && r < REGS
    ensures var d := WriteReg(c, r, v);
            && (forall j :: 0 <= j < REGS ==> Settled(c, r, v, d, j))
            && d.pending == (if r == 0x02 then 0 else c.pending)
            && d.squelchOpen == c.squelchOpen && d.tick == c.tick && d.stations == c.stations
  {
    forall k: nat
      ensures Bit(ClearFlag(c.regs[0x0c], 0), k) <==> Bit(c.regs[0x0c], k) && k != 0
    {
      FlagBits(c.regs[0x0c], 0, k);
    }
  }

  /** Every 12.5 kHz away from its centre a station is 0x30 weaker, down to nothing, on both sides alike. */
  lemma FadedSteps(s: Station, tuned: nat, n: nat)
    requires var away := if tuned < s.hz10 then s.hz10 - tuned else tuned - s.hz10; 1250 * n <= away < 1250 * (n + 1)
    ensures Faded(s, tuned) == if s.peak > 0x30 * n then s.peak - 0x30 * n else 0
  {
    var away := if tuned < s.hz10 then s.hz10 - tuned else tuned - s.hz10;
    assert away / 1250 == n;
  }

  /** The level at the frequency in REG_39 and REG_38: the loudest station there, or the floor. */
  ghost predicate Heard(c: Core, level: Word)
    requires c.Valid()
  {
    var tuned: nat := c.regs[0x39] as nat * 0x1_0000 + c.regs[0x38];
    Loudest(c.stations, tuned, if tuned == 0 then 0 else |c.stations|, level)
  }

  /** The strength a poll reports for a level: the level and a jitter below eight that goes with the tick. */
  function Reported(c: Core, level: Word): Word { (level + (c.tick + 1) % WORD32 * 7 % 8) % 0x1_0000 }

  predicate Wanting(c: Core)
    requires c.Valid()
  {
    Bit(c.regs[0x30], 0) && Bit(c.regs[0x3f], 2)
  }

  /** What opens the squelch: receiver awake and interrupt wanted, every 64th tick, a threshold that is not zero, and
      a strength of at least twice that. */
  ghost predicate Opens(c: Core, level: Word)
    requires c.Valid()
  {
    var threshold := c.regs[0x78] / 0x100;
    Wanting(c) && (c.tick + 1) % WORD32 % 64 == 0 && threshold != 0 && Reported(c, level) >= 2 * threshold
  }

  lemma LoudestUnique(stations: seq<Station>, tuned: nat, n: nat, x: Word, y: Word)
    requires n <= |stations| && Loudest(stations, tuned, n, x) && Loudest(stations, tuned, n, y)
    ensures x == y
  {
  }

  lemma HeardIsLevel(c: Core, level: Word)
    requires c.Valid()
    ensures Heard(c, level) <==> level == Level(c)
  {
    var n := if Tuned(c) == 0 then 0 else |c.stations|;
    StrongestIsLoudest(c.stations, Tuned(c), n);
    if Heard(c, level) {
      LoudestUnique(c.stations, Tuned(c), n, level, Strongest(c.stations, Tuned(c), n));
    }
  }

  /** Bit k of the pending flags after a poll. */
  ghost predicate PolledFlag(c: Core, level: Word, d: Core, k: nat)
    requires c.Valid()
  {
    Bit(d.pending, k) <==>
      || Bit(c.pending, k)
      || (k == 2 && Opens(c, level))
      || (k == 3 && Wanting(c) && c.squelchOpen && !Opens(c, level))
  }

  /** Register r after a poll. */
  ghost predicate PolledReg(c: Core, level: Word, d: Core, r: nat)
    requires c.Valid() && d.Valid() && r < REGS
  {
    if r == 0x0c then
      forall k: nat :: Bit(d.regs[r], k) <==> Bit(c.regs[r], k) || (k == 0 && Wanting(c) && d.pending != 0)
    else
      d.regs[r] == if r == 0x67 then Reported(c, level)
                   else if r == 0x64 then 0x400 + (c.tick + 1) % WORD32 * 23 % 0x800
                   else c.regs[r]
  }

  /** A poll: the squelch, the flags and every register after it. */
  lemma PollExactly(c: Core, level: Word)
    requires c.Valid() && Heard(c, level)
    ensures var d := Poll(c).0;
            && (d.squelchOpen <==> Opens(c, level)) && (forall k: nat :: PolledFlag(c, level, d, k))
            && (forall r :: 0 <= r < REGS ==> PolledReg(c, level, d, r))
            && d.tick == (c.tick + 1) % WORD32 && d.stations == c.stations
            && (Poll(c).1 <==> Bit(d.regs[0x0c], 0))
  {
    HeardIsLevel(c, level);
    var d := Poll(c).0;
    OpensIsAnnounced(c, level);
    forall k: nat
      ensures PolledFlag(c, level, d, k)
    {
      FlagBits(c.pending, LOST, k);
      FlagBits(c.pending, FOUND, k);
    }
    forall k: nat
      ensures Bit(SetFlag(c.regs[0x0c], 0), k) <==> Bit(c.regs[0x0c], k) || k == 0
    {
      FlagBits(c.regs[0x0c], 0, k);
    }
    PolledRegs(c, level, d);
  }

  lemma OpensIsAnnounced(c: Core, level: Word)
    requires c.Valid() && level == Level(c)
    ensures Wanting(c) == Listening(c) && Opens(c, level) == Announces(c) && Reported(c, level) == NextRssi(c)
  {
  }

  lemma PolledRegs(c: Core, level: Word, d: Core)
    requires c.Valid() && level == Level(c) && d == Eval(c)
    requires forall k: nat :: Bit(SetFlag(c.regs[0x0c], 0), k) <==> Bit(c.regs[0x0c], k) || k == 0
    ensures forall r :: 0 <= r < REGS ==> PolledReg(c, level, d, r)
  {
    OpensIsAnnounced(c, level);
  }

  /** The next poll opens the squelch. */
  ghost predicate Audible(c: Core)
    requires c.Valid()
  {
    exists level: Word :: Heard(c, level) && Opens(c, level)
  }

  lemma OpensExactly(c: Core)
    requires c.Valid()
    ensures Poll(c).0.squelchOpen <==> Audible(c)
  {
    HeardIsLevel(c, Level(c));
    PollExactly(c, Level(c));
    if Audible(c) {
      var level: Word :| Heard(c, level) && Opens(c, level);
      HeardIsLevel(c, level);
    }
  }

  /** Closed, with nothing pending. */
  predicate Silent(c: Core) { c.pending == 0 && !c.squelchOpen }

  lemma SilentStep(c: Core, op: Op)
    requires c.Valid() && op.Valid() && Silent(c)
    ensures Silent(Apply(c, op)) <==> !(op == Read(INTERRUPT) && Audible(c))
  {
    if op == Read(INTERRUPT) {
      OpensExactly(c);
    }
  }

  ghost predicate SilentAt(c: Core, ops: seq<Op>, i: nat)
    requires c.Valid() && (forall op :: op in ops ==> op.Valid()) && i <= |ops|
  {
    Silent(RunOps(c, ops[..i]))
  }

  /** Step i of the run is not a poll that finds a signal which reaches the threshold. */
  ghost predicate Unheard(c: Core, ops: seq<Op>, i: nat)
    requires c.Valid() && (forall op :: op in ops ==> op.Valid()) && i < |ops|
  {
    ops[i] == Read(0x0c) ==> !Audible(RunOps(c, ops[..i]))
  }

  lemma SilentNext(c: Core, ops: seq<Op>, i: nat)
    requires c.Valid() && (forall op :: op in ops ==> op.Valid()) && i < |ops| && SilentAt(c, ops, i)
    ensures SilentAt(c, ops, i + 1) <==> Unheard(c, ops, i)
  {
    assert ops[..i + 1][..i] == ops[..i];
    SilentStep(RunOps(c, ops[..i]), ops[i]);
  }

  /** Over any run from silence: the squelch stays closed and no flag is raised exactly as long as no poll finds a
      signal that reaches the threshold. */
  lemma {:induction false} SilentExactly(c: Core, ops: seq<Op>, n: nat)
    requires c.Valid() && Silent(c) && (forall op :: op in ops ==> op.Valid()) && n <= |ops|
    ensures (forall i :: 0 <= i <= n ==> SilentAt(c, ops, i)) <==> (forall i :: 0 <= i < n ==> Unheard(c, ops, i))
  {
    if n == 0 {
      assert SilentAt(c, ops, 0);
    } else {
      SilentExactly(c, ops, n - 1);
      if SilentAt(c, ops, n - 1) {
        SilentNext(c, ops, n - 1);
      }
    }
  }

  // ------------------------------------------------ three turns, from power-on

  /** Wake the receiver, want the squelch interrupt, set the lowest threshold; then n polls. */
  function LateAnswer(n: nat): seq<Op>
  {
    if n == 0 then [Write(RX_ENABLE, 1), Write(INT_ENABLE, 4), Write(RSSI_THRESH, 0x100)]
    else LateAnswer(n - 1) + [Read(INTERRUPT)]
  }

  lemma SetUp(stations: seq<Station>)
    requires forall i :: 0 <= i < |stations| ==> stations[i].peak <= 0xfff8
    ensures forall op :: op in LateAnswer(0) ==> op.Valid()
    ensures var c := RunOps(Reset(stations), LateAnswer(0)); Hearing(c) && c.tick == 0
  {
    var a, b, d := Write(RX_ENABLE, 1), Write(INT_ENABLE, 4), Write(RSSI_THRESH, 0x100);
    assert LateAnswer(0)[..2] == [a, b] && [a, b][..1] == [a] && [a][..0] == [];
    var c0 := Reset(stations);
    assert RunOps(c0, [a]) == Apply(c0, a);
    assert RunOps(c0, [a, b]) == Apply(Apply(c0, a), b);
    assert Bit(4, LOST);
  }

  /** After n polls without an acknowledgement: the flag announced on the first beat waits. */
  ghost predicate Waited(c: Core, n: nat)
  {
    Hearing(c) && c.tick == n && (n >= 64 ==> c.pending != 0)
  }

  lemma WaitedNext(c: Core, n: nat)
    requires n + 1 < WORD32 && Waited(c, n)
    ensures Waited(Poll(c).0, n + 1)
  {
    StillHearing(c);
    HearingAnnounces(c);
    if n + 1 >= 64 {
      PollKeepsPending(c);
    }
  }

  lemma PolledLast(c: Core, ops: seq<Op>)
    requires c.Valid() && (forall op :: op in ops ==> op.Valid())
    ensures forall op :: op in ops + [Read(INTERRUPT)] ==> op.Valid()
    ensures RunOps(c, ops + [Read(INTERRUPT)]) == Poll(RunOps(c, ops)).0
  {
    assert (ops + [Read(INTERRUPT)])[..|ops|] == ops;
  }

  lemma {:induction false} FlagWaits(stations: seq<Station>, n: nat)
    requires n < WORD32 && forall i :: 0 <= i < |stations| ==> stations[i].peak <= 0xfff8
    ensures forall op :: op in LateAnswer(n) ==> op.Valid()
    ensures Waited(RunOps(Reset(stations), LateAnswer(n)), n)
  {
    if n == 0 {
      SetUp(stations);
    } else {
      FlagWaits(stations, n - 1);
      PolledLast(Reset(stations), LateAnswer(n - 1));
      WaitedNext(RunOps(Reset(stations), LateAnswer(n - 1)), n - 1);
    }
  }

  lemma PollKeepsPending(c: Core)
    requires c.Valid() && (c.pending != 0 || Announces(c))
    ensures Poll(c).0.pending != 0
  {
    FlagBits(c.pending, LOST, LOST);
    FlagBits(c.pending, FOUND, FOUND);
    ZeroBit(LOST);
    ZeroBit(FOUND);
  }

  /** From power-on, after 126 polls without an acknowledgement, the loop runs its body three times. */
  lemma ThreeFromReset(stations: seq<Station>)
    requires forall i :: 0 <= i < |stations| ==> stations[i].peak <= 0xfff8
    ensures forall op :: op in LateAnswer(126) ==> op.Valid()
    ensures var c := RunOps(Reset(stations), LateAnswer(126));
            !Exits(c, 0) && !Exits(c, 1) && !Exits(c, 2) && Exits(c, 3)
  {
    FlagWaits(stations, 126);
    var c := RunOps(Reset(stations), LateAnswer(126));
    LoopMayTakeThree(c);
    LoopDrains(c);
  }
}
