/** Keeping the image file up to date: dirty range, in place, replacement. */
module WriteBack {
  import opened Bits
  import opened Nor
  import opened Wrappers

  /** The flash with the image file behind it. hasPath: an image was configured. */
  datatype Store = Store(chip: Chip, hasPath: bool, file: Option<seq<Byte>>)

  /** What the host's file system does with one flush. An interrupted in-place write reaches the bytes of landed,
      and may have grown the file; a temporary file whose close fails holds torn. */
  datatype Io = Io(opens: bool, landed: set<nat>, grown: nat, wrote: bool,
                   tmpOpens: bool, tmpWrites: bool, tmpCloses: bool, torn: seq<Byte>, renames: bool)

  /** The length of a file after a write that ends at hi. */
  function Grown(len: nat, hi: nat, io: Io): (n: nat)
    ensures len <= n <= if len < hi then hi else len
  {
    var most := if len < hi then hi else len;
    if io.wrote || io.grown > most then most else if io.grown < len then len else io.grown
  }

  /** A file of any length after a write into lo to hi: past its old end, what was not written is zero. */
  function Overlay(was: seq<Byte>, data: seq<Byte>, lo: nat, hi: nat, io: Io): (r: seq<Byte>)
    requires lo <= hi <= |data|
  {
    var n := Grown(|was|, hi, io);
    seq(n, i requires 0 <= i < n =>
      if lo <= i < hi && (io.wrote || i in io.landed) then data[i] else if i < |was| then was[i] else 0)
  }

  function Flush(s: Store, io: Io): Store
    requires s.chip.Valid()
  {
    var c := s.chip;
    if !c.dirty || !s.hasPath then s
    else if s.file.Some? && io.opens then
      var f := Some(Overlay(s.file.value, c.data, c.lo, c.hi, io));
      if io.wrote then Store(c.(dirty := false, lo := 0, hi := 0), s.hasPath, f) else s.(file := f)
    else if io.tmpOpens && io.tmpWrites && io.renames then
      Store(c.(dirty := false), s.hasPath, Some(if io.tmpCloses then c.data else io.torn))
    else s
  }

  /** The rising edge of chip select writes the image back. */
  function Release(s: Store, io: Io): Store
    requires s.chip.Valid()
  {
    if s.chip.selected then
      var t := Flush(s.(chip := s.chip.(cmd := NONE, phase := 0)), io);
      t.(chip := t.chip.(selected := false))
    else s
  }

  /** At exit the whole image counts as dirty if any of it does. */
  function Exit(s: Store, io: Io): Store
    requires s.chip.Valid()
  {
    if s.chip.dirty then Flush(s.(chip := s.chip.(lo := 0, hi := SIZE)), io) else Flush(s, io)
  }

  ghost predicate Blank(data: seq<Byte>)
  {
    forall i :: 0 <= i < |data| ==> data[i] == 0xff
  }

  /** Byte i of a file as it is read at start: erased flash where the file ends. */
  function At(file: seq<Byte>, i: nat): Byte
  {
    if i < |file| then file[i] else 0xff
  }

  /** Holds in every state, whatever the host's answers: a file that was never made has nothing to hold, or the
      flash is dirty. */
  ghost predicate Sound(s: Store)
  {
    s.chip.Valid() && (s.hasPath && s.file.None? && !s.chip.dirty ==> Blank(s.chip.data))
  }

  predicate InRange(c: Chip, i: nat) { c.dirty && c.lo <= i < c.hi }

  /** A restart would find another byte at i, and no flush to come will write it. */
  ghost predicate LostAt(s: Store, i: nat)
  {
    s.hasPath && s.file.Some? && i < |s.chip.data| && s.chip.data[i] != At(s.file.value, i) && !InRange(s.chip, i)
  }

  /** Wherever memory and file differ, the difference is inside the dirty range. */
  ghost predicate Intact(s: Store)
  {
    Sound(s) && forall i: nat :: !LostAt(s, i)
  }

  /** The file, if there is one, is as long as the flash. */
  predicate Whole(s: Store) { s.file.Some? ==> |s.file.value| >= SIZE }

  ghost predicate Agreement(s: Store)
  {
    Intact(s) && Whole(s)
  }

  /** The one host failure the flush does not look at: closing the temporary file. */
  predicate CloseChecked(io: Io) { io.tmpCloses }

  /** The flush goes by the temporary file, and to its end. */
  predicate Replaces(s: Store, io: Io)
  {
    s.chip.dirty && s.hasPath && !(s.file.Some? && io.opens) && io.tmpOpens && io.tmpWrites && io.renames
  }

  /** The flush writes past the end of a short file, and so puts a zero at i. */
  predicate ZeroedAt(s: Store, io: Io, i: nat)
  {
    && s.chip.dirty && s.hasPath && s.file.Some? && io.opens
    && |s.file.value| <= i < s.chip.lo && i < Grown(|s.file.value|, s.chip.hi, io)
  }

  /** The flush settles what a restart will find at i, though i is not in the dirty range. */
  predicate SettlesAt(s: Store, io: Io, i: nat) { Replaces(s, io) || ZeroedAt(s, io, i) }

  /** And settles it wrongly: by a replacement whose unlooked-at close failed, or by a zero. */
  predicate TearsAt(s: Store, io: Io, i: nat)
    requires s.chip.Valid()
  {
    i < SIZE && if Replaces(s, io) then !io.tmpCloses && At(io.torn, i) != s.chip.data[i]
                else ZeroedAt(s, io, i) && s.chip.data[i] != 0
  }

  lemma MarkDirtyCovers(c: Chip, d: Chip, a: nat, len: nat)
    requires c.Valid() && d == MarkDirty(c, a, len) && a + len <= SIZE && 0 < len
    ensures d.Valid() && d.dirty && d.lo <= a && a + len <= d.hi
    ensures c.dirty ==> d.lo <= c.lo && c.hi <= d.hi
  {
  }

  /** One byte clocked: what it changes is in the dirty range, which never shrinks. */
  lemma XferMarks(c: Chip, out: Byte, i: nat)
    requires c.Valid() && i < SIZE
    ensures var d := Xfer(c, out).0;
            d.Valid() && (InRange(c, i) ==> InRange(d, i)) && (d.data[i] != c.data[i] ==> InRange(d, i))
    ensures c.dirty ==> Xfer(c, out).0.dirty
    ensures !Xfer(c, out).0.dirty ==> Xfer(c, out).0.data == c.data
  {
    XferKeepsValid(c, out);
    var p := c.(phase := (c.phase + 1) % WORD32);
    if c.selected && c.cmd == PP && p.phase > 3 && c.wren {
      var at := c.addr % SIZE;
      var w := p.(data := p.data[at := And(p.data[at], out)]);
      MarkDirtyCovers(w, MarkDirty(w, at, 1), at, 1);
    } else if c.selected && c.cmd == SE && p.phase == 3 && c.wren {
      var t := p.(addr := ShiftAddr(p.addr, out));
      var at := t.addr / SECTOR * SECTOR % SIZE;
      SectorFits(t.addr);
      var w := t.(data := Filled(t.data, at, at + SECTOR, 0xff));
      MarkDirtyCovers(w, MarkDirty(w, at, SECTOR), at, SECTOR);
    }
  }

  lemma XferKeepsSound(s: Store, out: Byte)
    requires Sound(s)
    ensures Sound(s.(chip := Xfer(s.chip, out).0))
  {
    XferMarks(s.chip, out, 0);
  }

  /** Clocking loses no byte; a lost byte that comes into the dirty range is lost no more. */
  lemma XferLoses(s: Store, out: Byte, i: nat)
    requires Sound(s)
    ensures var t := s.(chip := Xfer(s.chip, out).0);
            LostAt(t, i) <==> LostAt(s, i) && !InRange(t.chip, i)
  {
    if i < SIZE {
      XferMarks(s.chip, out, i);
    }
  }

  lemma FlushKeepsSound(s: Store, io: Io)
    requires Sound(s)
    ensures Sound(Flush(s, io)) && Flush(s, io).chip.data == s.chip.data
  {
  }

  /** What a flush does to a byte. */
  lemma FlushLoses(s: Store, io: Io, i: nat)
    requires Sound(s)
    ensures LostAt(Flush(s, io), i) <==> if SettlesAt(s, io, i) then TearsAt(s, io, i) else LostAt(s, i)
  {
  }

  /** What a restart would find is what is in memory. */
  ghost predicate Saved(s: Store)
    requires s.chip.Valid()
  {
    forall i: nat :: i < SIZE ==> s.chip.data[i] == At(if s.file.Some? then s.file.value else [], i)
  }

  /** A clean flash is saved exactly if no byte is lost; and a saved file of full size is the flash. */
  lemma CleanIsSaved(s: Store)
    requires Sound(s) && s.hasPath && !s.chip.dirty
    ensures Saved(s) <==> Intact(s)
    ensures s.file.Some? && |s.file.value| == SIZE ==> (Saved(s) <==> s.file.value == s.chip.data)
  {
    if s.file.Some? {
      forall i: nat | i < SIZE
        ensures LostAt(s, i) <==> s.chip.data[i] != At(s.file.value, i)
      {
      }
      assert Intact(s) ==> forall i: nat :: i < SIZE ==> !LostAt(s, i);
    }
  }

  /** When a flush clears the dirty flag, and whether the flash is then saved. */
  lemma FlushSucceeds(s: Store, io: Io)
    requires Sound(s) && s.hasPath && s.chip.dirty
    ensures !Flush(s, io).chip.dirty <==> (s.file.Some? && io.opens && io.wrote) || Replaces(s, io)
    ensures !Flush(s, io).chip.dirty ==>
              (Saved(Flush(s, io)) <==>
               forall i: nat :: !(if SettlesAt(s, io, i) then TearsAt(s, io, i) else LostAt(s, i)))
  {
    var t := Flush(s, io);
    FlushKeepsSound(s, io);
    if !t.chip.dirty {
      forall i: nat
        ensures LostAt(t, i) <==> if SettlesAt(s, io, i) then TearsAt(s, io, i) else LostAt(s, i)
      {
        FlushLoses(s, io, i);
      }
      CleanIsSaved(t);
    }
  }

  /** The unchecked close is a real gap. Whenever the flush goes by the temporary file, because there is no image
      yet or it cannot be opened for update, it reports success; and the image is safe, whatever a failed
      close leaves in it, exactly if the close succeeds. */
  lemma UncheckedCloseLosesImage(s: Store, io: Io)
    requires Sound(s) && Replaces(s, io)
    ensures !Flush(s, io).chip.dirty
    ensures (forall torn: seq<Byte> :: Saved(Flush(s, io.(torn := torn)))) <==> io.tmpCloses
  {
    if !io.tmpCloses {
      NotSavedBy(s.chip.data, Flush(s, io.(torn := [if s.chip.data[0] == 0 then 1 else 0])));
    }
  }

  lemma NotSavedBy(data: seq<Byte>, t: Store)
    requires t.chip.Valid() && t.chip.data == data && t.file == Some([if data[0] == 0 then 1 else 0])
    ensures !Saved(t)
  {
    assert data[0] != At(t.file.value, 0);
  }

  /** So is a short image. When all but the dirty range is as a restart would find it, and that range is written in
      place, the flash is saved exactly if the range does not start past the end of the file. */
  lemma ShortImageExactly(s: Store, io: Io)
    requires Intact(s) && s.hasPath && s.chip.dirty && s.file.Some? && io.opens && io.wrote
    ensures !Flush(s, io).chip.dirty && (Saved(Flush(s, io)) <==> s.chip.lo <= |s.file.value|)
  {
    FlushSucceeds(s, io);
    var n := |s.file.value|;
    if n < s.chip.lo {
      assert !LostAt(s, n) && s.chip.data[n] == 0xff;
      assert SettlesAt(s, io, n) && TearsAt(s, io, n);
    }
  }

  // ------------------------------------------------ every reachable state

  datatype Event = Clocked(out: Byte) | Lowered | Raised(io: Io) | Quit(io: Io)

  function Step(s: Store, e: Event): Store
    requires s.chip.Valid()
  {
    match e
    case Clocked(out) => s.(chip := Xfer(s.chip, out).0)
    case Lowered => s.(chip := Select(s.chip))
    case Raised(io) => Release(s, io)
    case Quit(io) => Exit(s, io)
  }

  /** The event settles what a restart will find at i, or brings i into the dirty range. */
  predicate EventSettles(s: Store, e: Event, i: nat)
    requires s.chip.Valid()
  {
    match e
    case Clocked(out) => InRange(Xfer(s.chip, out).0, i)
    case Lowered => false
    case Raised(io) => s.chip.selected && SettlesAt(s, io, i)
    case Quit(io) => s.chip.dirty
  }

  /** The event's flush tears byte i. */
  predicate EventTears(s: Store, e: Event, i: nat)
    requires s.chip.Valid()
  {
    match e
    case Raised(io) => s.chip.selected && TearsAt(s, io, i)
    case Quit(io) => Replaces(s, io) && TearsAt(s, io, i)
    case _ => false
  }

  lemma StepKeepsSound(s: Store, e: Event)
    requires Sound(s)
    ensures Sound(Step(s, e)) && Step(s, e).hasPath == s.hasPath
  {
    match e
    case Clocked(out) => XferKeepsSound(s, out);
    case Lowered =>
    case Raised(io) =>
      if s.chip.selected {
        FlushKeepsSound(s.(chip := s.chip.(cmd := NONE, phase := 0)), io);
      }
    case Quit(io) => FlushKeepsSound(if s.chip.dirty then s.(chip := s.chip.(lo := 0, hi := SIZE)) else s, io);
  }

  lemma ReleaseLoses(s: Store, io: Io, i: nat)
    requires Sound(s) && s.chip.selected
    ensures LostAt(Release(s, io), i) <==> if SettlesAt(s, io, i) then TearsAt(s, io, i) else LostAt(s, i)
  {
    FlushLoses(s.(chip := s.chip.(cmd := NONE, phase := 0)), io, i);
  }

  lemma ExitLoses(s: Store, io: Io, i: nat)
    requires Sound(s)
    ensures LostAt(Exit(s, io), i) <==> if s.chip.dirty then Replaces(s, io) && TearsAt(s, io, i) else LostAt(s, i)
  {
    FlushLoses(if s.chip.dirty then s.(chip := s.chip.(lo := 0, hi := SIZE)) else s, io, i);
  }

  /** A step loses a byte exactly by tearing it, or by leaving it lost. */
  lemma StepLoses(s: Store, e: Event, i: nat)
    requires Sound(s)
    ensures LostAt(Step(s, e), i) <==> if EventSettles(s, e, i) then EventTears(s, e, i) else LostAt(s, i)
    ensures EventTears(s, e, i) ==> EventSettles(s, e, i)
  {
    match e
    case Clocked(out) => XferLoses(s, out, i);
    case Lowered =>
    case Raised(io) =>
      if s.chip.selected {
        ReleaseLoses(s, io, i);
      }
    case Quit(io) => ExitLoses(s, io, i);
  }

  /** Any run, short and failed writes and failed closes included. */
  ghost function Run(s: Store, es: seq<Event>): (r: Store)
    requires Sound(s)
    ensures Sound(r) && r.hasPath == s.hasPath
  {
    if es == [] then s
    else
      var p := Run(s, es[..|es| - 1]);
      StepKeepsSound(p, es[|es| - 1]);
      Step(p, es[|es| - 1])
  }

  /** Event n of the run tears byte i. */
  ghost predicate TornBy(s: Store, es: seq<Event>, n: nat, i: nat)
    requires Sound(s) && n < |es|
  {
    EventTears(Run(s, es[..n]), es[n], i)
  }

  /** No event of the run from the nth on settles byte i. */
  ghost predicate Unsettled(s: Store, es: seq<Event>, n: nat, i: nat)
    requires Sound(s)
  {
    forall m :: n <= m < |es| ==> !EventSettles(Run(s, es[..m]), es[m], i)
  }

  lemma UnsettledFront(s: Store, es: seq<Event>, n: nat, i: nat)
    requires Sound(s) && es != [] && n < |es|
    ensures Unsettled(s, es, n, i) <==>
            Unsettled(s, es[..|es| - 1], n, i) && !EventSettles(Run(s, es[..|es| - 1]), es[|es| - 1], i)
  {
    var front := es[..|es| - 1];
    forall m | 0 <= m < |front|
      ensures front[..m] == es[..m] && front[m] == es[m]
    {
    }
    if Unsettled(s, es, n, i) {
      forall m | n <= m < |front|
        ensures !EventSettles(Run(s, front[..m]), front[m], i)
      {
        assert !EventSettles(Run(s, es[..m]), es[m], i);
      }
      assert !EventSettles(Run(s, es[..|front|]), es[|front|], i);
    }
    if Unsettled(s, front, n, i) && !EventSettles(Run(s, front), es[|es| - 1], i) {
      forall m | n <= m < |es|
        ensures !EventSettles(Run(s, es[..m]), es[m], i)
      {
        if m < |front| {
          assert !EventSettles(Run(s, front[..m]), front[m], i);
        }
      }
    }
  }

  /** Some event of the run tears byte i, and none after it settles it. */
  ghost predicate TornLast(s: Store, es: seq<Event>, i: nat)
    requires Sound(s)
  {
    exists n :: 0 <= n < |es| && TornBy(s, es, n, i) && Unsettled(s, es, n + 1, i)
  }

  /** Over any run, whatever the host answers: a byte is lost at the end exactly if some event tore it, or it was
      lost at the start, and no event since settled it. */
  lemma {:induction false} LostExactly(s: Store, es: seq<Event>, i: nat)
    requires Sound(s)
    ensures LostAt(Run(s, es), i) <==> TornLast(s, es, i) || (LostAt(s, i) && Unsettled(s, es, 0, i))
    decreases |es|
  {
    if es != [] {
      var front, last := es[..|es| - 1], es[|es| - 1];
      LostExactly(s, front, i);
      StepLoses(Run(s, front), last, i);
      UnsettledFront(s, es, 0, i);
      TornLastFront(s, es, i);
    }
  }

  lemma TornLastFront(s: Store, es: seq<Event>, i: nat)
    requires Sound(s) && es != []
    ensures var front, last := es[..|es| - 1], es[|es| - 1];
            TornLast(s, es, i) <==>
            EventTears(Run(s, front), last, i) || (TornLast(s, front, i) && !EventSettles(Run(s, front), last, i))
  {
    var front, last := es[..|es| - 1], es[|es| - 1];
    if TornLast(s, es, i) {
      var n :| 0 <= n < |es| && TornBy(s, es, n, i) && Unsettled(s, es, n + 1, i);
      if n < |front| {
        EarlierTear(s, es, n, i);
      }
    }
    if EventTears(Run(s, front), last, i) {
      assert TornBy(s, es, |front|, i) && Unsettled(s, es, |front| + 1, i);
    }
    if TornLast(s, front, i) && !EventSettles(Run(s, front), last, i) {
      var n :| 0 <= n < |front| && TornBy(s, front, n, i) && Unsettled(s, front, n + 1, i);
      EarlierTear(s, es, n, i);
    }
  }

  lemma EarlierTear(s: Store, es: seq<Event>, n: nat, i: nat)
    requires Sound(s) && es != [] && n < |es| - 1
    ensures var front, last := es[..|es| - 1], es[|es| - 1];
            TornBy(s, es, n, i) && Unsettled(s, es, n + 1, i) <==>
            TornBy(s, front, n, i) && Unsettled(s, front, n + 1, i) && !EventSettles(Run(s, front), last, i)
  {
    assert es[..|es| - 1][..n] == es[..n];
    UnsettledFront(s, es, n + 1, i);
  }

  /** No replacement in the run has an unlooked-at close that fails. */
  predicate Closes(e: Event)
  {
    match e
    case Raised(io) => CloseChecked(io)
    case Quit(io) => CloseChecked(io)
    case _ => true
  }

  lemma {:induction false} RunAgrees(s: Store, es: seq<Event>)
    requires Agreement(s) && forall e :: e in es ==> Closes(e)
    ensures Agreement(Run(s, es))
    decreases |es|
  {
    if es != [] {
      RunAgrees(s, es[..|es| - 1]);
      StepKeepsAgreement(Run(s, es[..|es| - 1]), es[|es| - 1]);
    }
  }

  /** After any step but a torn one no byte is lost; nor does the file get shorter but by a failed close, and while it
      is whole that is all that tears. */
  lemma StepKeepsAgreement(s: Store, e: Event)
    requires Intact(s)
    ensures Intact(Step(s, e)) <==> forall i: nat :: !EventTears(s, e, i)
    ensures Whole(s) && Closes(e) ==> Agreement(Step(s, e))
  {
    StepKeepsSound(s, e);
    forall i: nat
      ensures LostAt(Step(s, e), i) <==> EventTears(s, e, i)
    {
      StepLoses(s, e, i);
    }
  }

  /** The image as it is when the machine starts: loaded from the file, or erased. */
  function Load(hasPath: bool, file: Option<seq<Byte>>): (s: Store)
    ensures Sound(s)
  {
    var bytes := if hasPath && file.Some? then file.value else [];
    Store(Chip(seq(SIZE, i requires 0 <= i < SIZE => At(bytes, i)), false, NONE, 0, 0, false, false, 0, 0), hasPath,
          file)
  }

  predicate Succeeds(io: Io)
  {
    io.opens && io.wrote && io.tmpOpens && io.tmpWrites && io.tmpCloses && io.renames
  }

  /** What a chip-select frame or a deselect from s, answered by io, leaves: with no failed close the agreement
      stands, and if the host's calls all succeed the flash is clean. */
  ghost predicate Kept(s: Store, io: Io, t: Store)
  {
    && t.hasPath == s.hasPath
    && (Agreement(s) && CloseChecked(io) ==> Agreement(t))
    && (s.hasPath && Succeeds(io) ==> !t.chip.dirty)
  }

  lemma ReleaseKeeps(s: Store, io: Io)
    requires Sound(s) && s.chip.selected
    ensures Sound(Release(s, io)) && Release(s, io).chip.data == s.chip.data && Kept(s, io, Release(s, io))
  {
    StepKeepsSound(s, Raised(io));
    if Agreement(s) && CloseChecked(io) {
      StepKeepsAgreement(s, Raised(io));
    }
  }

  /** Over any run from power-on, with an image of any length and whatever the host's answers: a deselect that leaves
      the flash clean has saved all of it exactly if no byte is lost then; none is if the image was whole or absent
      and no close of a temporary file failed; and a deselect whose host calls all succeed leaves it clean. */
  lemma SavedAfterDeselect(hasPath: bool, file: Option<seq<Byte>>, es: seq<Event>, io: Io)
    requires hasPath
    ensures Intact(Load(hasPath, file))
    ensures var s := Run(Load(hasPath, file), es);
            var t := Release(s, io);
            s.chip.selected && !t.chip.dirty ==> (Saved(t) <==> Intact(t)) && t.chip.data == s.chip.data
    ensures var s := Run(Load(hasPath, file), es);
            Whole(Load(hasPath, file)) && (forall e :: e in es ==> Closes(e)) && CloseChecked(io) && s.chip.selected ==>
              Agreement(Release(s, io))
    ensures var s := Run(Load(hasPath, file), es);
            s.chip.selected && Succeeds(io) ==> !Release(s, io).chip.dirty
  {
    var s := Run(Load(hasPath, file), es);
    if s.chip.selected {
      ReleaseKeeps(s, io);
      if !Release(s, io).chip.dirty {
        CleanIsSaved(Release(s, io));
      }
      if Whole(Load(hasPath, file)) && forall e :: e in es ==> Closes(e) {
        RunAgrees(Load(hasPath, file), es);
      }
    }
  }

  /** And in any run from power-on, a deselect that goes by the temporary file keeps the image, whatever a failed
      close leaves in it, exactly if the close succeeds. */
  lemma TornInAnyRun(hasPath: bool, file: Option<seq<Byte>>, es: seq<Event>, io: Io)
    requires Run(Load(hasPath, file), es).chip.selected && Replaces(Run(Load(hasPath, file), es), io)
    ensures var s := Run(Load(hasPath, file), es);
            && !Release(s, io).chip.dirty
            && ((forall torn: seq<Byte> :: Saved(Release(s, io.(torn := torn)))) <==> io.tmpCloses)
  {
    var s := Run(Load(hasPath, file), es);
    var u := s.(chip := s.chip.(cmd := NONE, phase := 0));
    UncheckedCloseLosesImage(u, io);
    if io.tmpCloses {
      forall torn: seq<Byte>
        ensures Saved(Release(s, io.(torn := torn)))
      {
        assert Saved(Flush(u, io.(torn := torn)));
      }
    } else {
      NotSavedBy(s.chip.data, Release(s, io.(torn := [if s.chip.data[0] == 0 then 1 else 0])));
    }
  }
}
