/** The web page's frame pump: a reader thread and its callers. */
module FramePump {
  import opened Bits
  import opened Wrappers
  import opened Panel
  import opened LcdView

  type Pixels = seq<seq<nat>>
  type Png = nat

  /** The status line and the rest of the screen, as bytes. */
  type Frame = f: (seq<Byte>, seq<Byte>) | |f.0| == WIDTH && |f.1| == 7 * WIDTH
    witness (seq(WIDTH, i => 0), seq(7 * WIDTH, i => 0))

  /** A grabber is an object: its id stands for its identity. */
  datatype Grabber = Grabber(id: nat, client: nat, frameAddr: nat, statusAddr: nat)

  /** One pass over the screen: the bytes that became pixels, whether the panel's settings inverted them, and the
      bytes that are stored. The panel path reads its memory twice and its settings in between; the fallback
      reads once and inverts nothing. */
  datatype Reading = Reading(shown: Frame, invert: bool, frame: Frame)

  /** The pixels of a frame's bytes. */
  function Unpacked(f: Frame): (p: Pixels)
    ensures |p| == HEIGHT && forall y :: 0 <= y < HEIGHT ==> |p[y]| == WIDTH
  {
    seq(HEIGHT, y requires 0 <= y < HEIGHT =>
      seq(WIDTH, x requires 0 <= x < WIDTH => Lit(Source(f.0, f.1, y / 8, x), y % 8)))
  }

  function Flipped(p: Pixels): Pixels
  {
    seq(|p|, y requires 0 <= y < |p| => seq(|p[y]|, x requires 0 <= x < |p[y]| => if p[y][x] == 0 then 1 else 0))
  }

  function Pictured(r: Reading): Pixels
  {
    if r.invert then Flipped(Unpacked(r.shown)) else Unpacked(r.shown)
  }

  /** Where the reader thread is: between loops, holding a grabber, or holding what it read. */
  datatype Reader = Idle | Holding(g: Grabber) | Read(g: Grabber, reading: Reading)

  datatype Pump = Pump(grabber: Option<Grabber>, png: Option<Png>, raw: Option<Frame>, generation: nat,
                       frameAddr: nat, statusAddr: nat, nextId: nat, reader: Reader)

  /** Fail: neither the panel nor guest memory could be read. */
  datatype Event =
    | Snapshot
    | Panel(reading: Reading)
    | Fallback(frame: Frame)
    | Fail
    | Publish
    | Rebind(client: Option<nat>)
    | SetBuffers(frameAddr: nat, statusAddr: nat)

  /** The image encoder is left uninterpreted. */
  type Codec = Pixels -> Png

  predicate Publishes(p: Pump)
  {
    p.reader.Read? && p.grabber == Some(p.reader.g) && p.raw != Some(p.reader.reading.frame)
  }

  function Step(k: Codec, p: Pump, e: Event): Pump
  {
    match e
    case Snapshot =>
      if p.reader.Idle? && p.grabber.Some? then p.(reader := Holding(p.grabber.value)) else p
    case Panel(reading) =>
      if p.reader.Holding? then p.(reader := Read(p.reader.g, reading)) else p
    case Fallback(frame) =>
      if p.reader.Holding? then p.(reader := Read(p.reader.g, Reading(frame, false, frame))) else p
    case Fail => if p.reader.Holding? then p.(reader := Idle) else p
    case Publish =>
      if !p.reader.Read? then p
      else if Publishes(p) then
        var r := p.reader.reading;
        p.(raw := Some(r.frame), png := Some(k(Pictured(r))), generation := p.generation + 1, reader := Idle)
      else p.(reader := Idle)
    case Rebind(client) =>
      var q := p.(generation := p.generation + 1);
      if client.None? then q.(grabber := None, png := None, raw := None)
      else q.(grabber := Some(Grabber(p.nextId, client.value, p.frameAddr, p.statusAddr)), nextId := p.nextId + 1)
    case SetBuffers(f, s) =>
      var q := p.(frameAddr := f, statusAddr := s);
      if p.grabber.None? then q
      else q.(grabber := Some(Grabber(p.nextId, p.grabber.value.client, f, s)), nextId := p.nextId + 1)
  }

  function Run(k: Codec, p: Pump, es: seq<Event>): Pump
  {
    if es == [] then p else Step(k, Run(k, p, es[..|es| - 1]), es[|es| - 1])
  }

  function Start(client: Option<nat>, f: nat, s: nat): Pump
  {
    Pump(if client.Some? then Some(Grabber(0, client.value, f, s)) else None, None, None, 0, f, s, 1, Idle)
  }

  // ------------------------------------------------ safety over every interleaving

  predicate Held(p: Pump, g: Grabber)
  {
    (p.reader.Holding? || p.reader.Read?) && p.reader.g == g
  }

  /** A dark screen has no frame; a frame has its bytes; identities are not reused. */
  ghost predicate Good(p: Pump)
  {
    && (p.grabber.None? ==> p.png.None? && p.raw.None?)
    && (p.png.Some? <==> p.raw.Some?)
    && (p.grabber.Some? ==> p.grabber.value.id < p.nextId)
    && (forall g :: Held(p, g) ==> g.id < p.nextId)
    && (forall g :: Held(p, g) && p.grabber.Some? && p.grabber.value.id == g.id ==> p.grabber.value == g)
  }

  /** The generation never falls, and rises by one exactly on a publication or a rebind; the shown
      frame changes on nothing else. */
  lemma StepIsSafe(k: Codec, p: Pump, e: Event)
    requires Good(p)
    ensures var q := Step(k, p, e);
            && Good(q)
            && q.generation == (if e.Rebind? || (e == Publish && Publishes(p)) then p.generation + 1 else p.generation)
            && (q.png != p.png || q.raw != p.raw ==>
                  (e == Publish && Publishes(p)) || (e == Rebind(None) && q.png.None? && q.raw.None?))
  {
    var q := Step(k, p, e);
    assert forall g :: Held(q, g) && !Held(p, g) ==> e == Snapshot && p.grabber == Some(g);
  }

  lemma {:induction false} RunIsSafe(k: Codec, client: Option<nat>, f: nat, s: nat, es: seq<Event>)
    ensures Good(Run(k, Start(client, f, s), es))
    decreases |es|
  {
    if es != [] {
      RunIsSafe(k, client, f, s, es[..|es| - 1]);
      StepIsSafe(k, Run(k, Start(client, f, s), es[..|es| - 1]), es[|es| - 1]);
    }
  }

  lemma {:induction false} GenerationGrows(k: Codec, p: Pump, es: seq<Event>)
    requires Good(p)
    ensures Good(Run(k, p, es)) && p.generation <= Run(k, p, es).generation
    decreases |es|
  {
    if es != [] {
      GenerationGrows(k, p, es[..|es| - 1]);
      StepIsSafe(k, Run(k, p, es[..|es| - 1]), es[|es| - 1]);
    }
  }

  /** A grabber that is not the current one never becomes current again. */
  lemma {:induction false} RetiredForever(k: Codec, p: Pump, g: Grabber, es: seq<Event>)
    requires Good(p) && g.id < p.nextId && p.grabber != Some(g)
    ensures Run(k, p, es).grabber != Some(g) && g.id < Run(k, p, es).nextId
    decreases |es|
  {
    if es != [] {
      RetiredForever(k, p, g, es[..|es| - 1]);
    }
  }

  /** A frame read through a grabber that was replaced meanwhile is never published, whatever
      happened in between. */
  lemma StaleFrameDropped(k: Codec, p: Pump, g: Grabber, before: seq<Event>, swap: Event, after: seq<Event>)
    requires Good(p) && p.grabber == Some(g) && Held(p, g)
    requires swap.Rebind? || swap.SetBuffers?
    ensures var q := Run(k, Step(k, Run(k, p, before), swap), after);
            Held(q, g) ==> !Publishes(q)
  {
    GenerationGrows(k, p, before);
    var q := Run(k, p, before);
    StillKnown(k, p, before);
    StepIsSafe(k, q, swap);
    var r := Step(k, q, swap);
    assert g.id < q.nextId;
    assert r.grabber != Some(g);
    RetiredForever(k, r, g, after);
  }

  lemma {:induction false} StillKnown(k: Codec, p: Pump, es: seq<Event>)
    ensures Run(k, p, es).nextId >= p.nextId
    decreases |es|
  {
    if es != [] {
      StillKnown(k, p, es[..|es| - 1]);
    }
  }

  /** The addresses the run set last, and the client it bound last. */
  function Buffers(f: nat, s: nat, es: seq<Event>): (nat, nat)
  {
    if es == [] then (f, s)
    else if es[|es| - 1].SetBuffers? then (es[|es| - 1].frameAddr, es[|es| - 1].statusAddr)
    else Buffers(f, s, es[..|es| - 1])
  }

  function Bound(client: Option<nat>, es: seq<Event>): Option<nat>
  {
    if es == [] then client
    else if es[|es| - 1].Rebind? then es[|es| - 1].client
    else Bound(client, es[..|es| - 1])
  }

  /** Over every run the current grabber reads the addresses set last, through the client bound last; and there is one
      exactly while a client is bound. */
  lemma {:induction false} GrabberIsCurrent(k: Codec, client: Option<nat>, f: nat, s: nat, es: seq<Event>)
    ensures var p := Run(k, Start(client, f, s), es);
            && (p.frameAddr, p.statusAddr) == Buffers(f, s, es)
            && (p.grabber.Some? <==> Bound(client, es).Some?)
            && (p.grabber.Some? ==>
                  && Some(p.grabber.value.client) == Bound(client, es)
                  && (p.grabber.value.frameAddr, p.grabber.value.statusAddr) == Buffers(f, s, es))
    decreases |es|
  {
    if es != [] {
      GrabberIsCurrent(k, client, f, s, es[..|es| - 1]);
    }
  }

  /** A round of the reader with nothing in between publishes what it read, unless the bytes are those shown already; a
      round in which nothing could be read changes nothing. */
  lemma RoundPublishes(k: Codec, p: Pump, r: Reading)
    requires p.reader.Idle? && p.grabber.Some?
    ensures var q := Step(k, Step(k, Step(k, p, Snapshot), Panel(r)), Publish);
            q == if p.raw == Some(r.frame) then p
                 else p.(raw := Some(r.frame), png := Some(k(Pictured(r))), generation := p.generation + 1)
    ensures var q := Step(k, Step(k, Step(k, p, Snapshot), Fallback(r.frame)), Publish);
            q == if p.raw == Some(r.frame) then p
                 else p.(raw := Some(r.frame), png := Some(k(Unpacked(r.frame))), generation := p.generation + 1)
    ensures Step(k, Step(k, p, Snapshot), Fail) == p
  {
  }

  // ------------------------------------------------ the picture and the bytes

  /** The reading published last since the screen was last blanked, if there is one. */
  function LastShown(k: Codec, p: Pump, es: seq<Event>): Option<Reading>
  {
    if es == [] then None
    else
      var front, last := es[..|es| - 1], es[|es| - 1];
      var q := Run(k, p, front);
      if last == Publish && Publishes(q) then Some(q.reader.reading)
      else if last == Rebind(None) then None
      else LastShown(k, p, front)
  }

  /** What is stored and what is shown are that reading's bytes and that reading's picture. */
  lemma {:induction false} ShowsLast(k: Codec, client: Option<nat>, f: nat, s: nat, es: seq<Event>)
    ensures var p := Run(k, Start(client, f, s), es);
            match LastShown(k, Start(client, f, s), es)
            case None => p.raw == None && p.png == None
            case Some(r) => p.raw == Some(r.frame) && p.png == Some(k(Pictured(r)))
    decreases |es|
  {
    if es != [] {
      ShowsLast(k, client, f, s, es[..|es| - 1]);
    }
  }

  /** A byte with every bit the other way. */
  function Negative(b: Byte): Byte { 255 - b }

  function Complement(f: Frame): Frame
  {
    (seq(WIDTH, i requires 0 <= i < WIDTH => Negative(f.0[i])),
     seq(7 * WIDTH, i requires 0 <= i < 7 * WIDTH => Negative(f.1[i])))
  }

  /** The reading's picture is that of the bytes it stores: with inversion off, both readings of the memory agree;
      with inversion on, the stored bytes are the complement of those shown. */
  predicate Faithful(r: Reading)
  {
    r.frame == if r.invert then Complement(r.shown) else r.shown
  }

  ghost predicate Lossless(k: Codec)
  {
    forall a, b :: k(a) == k(b) ==> a == b
  }

  /** Over every run, if the encoder loses nothing: the picture encodes the stored bytes exactly if the reading
      published last since the last blanking was faithful. */
  lemma PictureOfBytes(k: Codec, client: Option<nat>, f: nat, s: nat, es: seq<Event>)
    requires Lossless(k)
    ensures var p := Run(k, Start(client, f, s), es);
            var last := LastShown(k, Start(client, f, s), es);
            && (p.raw.Some? <==> last.Some?)
            && (p.raw.Some? ==> (p.png == Some(k(Unpacked(p.raw.value))) <==> Faithful(last.value)))
  {
    ShowsLast(k, client, f, s, es);
    var last := LastShown(k, Start(client, f, s), es);
    if last.Some? {
      SamePicture(last.value);
      assert k(Pictured(last.value)) == k(Unpacked(last.value.frame)) ==>
               Pictured(last.value) == Unpacked(last.value.frame);
    }
  }

  /** A fallback reading is always faithful; a panel reading with inversion off exactly if the memory did not
      change in between; one with inversion on never if it did not. */
  lemma WhenFaithful(shown: Frame, frame: Frame)
    ensures Faithful(Reading(frame, false, frame))
    ensures Faithful(Reading(shown, false, frame)) <==> shown == frame
    ensures !Faithful(Reading(frame, true, frame))
  {
    assert Complement(frame).0[0] == 255 - frame.0[0];
  }

  lemma SamePicture(r: Reading)
    ensures Pictured(r) == Unpacked(r.frame) <==> Faithful(r)
  {
    if r.invert {
      FlippedIs(r.shown);
      UnpackedInjective(Complement(r.shown), r.frame);
    } else {
      UnpackedInjective(r.shown, r.frame);
    }
  }

  lemma NegativeBit(b: Byte, k: nat)
    requires k < 8
    ensures Bit(Negative(b), k) == !Bit(b, k)
  {
    Pow2Byte();
    NegativeBits(b, k, 8);
  }

  lemma {:induction false} NegativeBits(x: nat, k: nat, n: nat)
    requires k < n && x < Pow2(n)
    ensures Bit(Pow2(n) - 1 - x, k) == !Bit(x, k)
  {
    var y := Pow2(n) - 1 - x;
    assert Pow2(n) == 2 * Pow2(n - 1);
    if k > 0 {
      NegativeBits(x / 2, k - 1, n - 1);
      assert y / 2 == Pow2(n - 1) - 1 - x / 2;
    }
  }

  lemma ComplementSource(f: Frame, page: nat, col: nat)
    requires page < PAGES && col < WIDTH
    ensures Source(Complement(f).0, Complement(f).1, page, col) == Negative(Source(f.0, f.1, page, col))
  {
  }

  lemma FlippedIs(f: Frame)
    ensures Flipped(Unpacked(f)) == Unpacked(Complement(f))
  {
    forall y | 0 <= y < HEIGHT
      ensures Flipped(Unpacked(f))[y] == Unpacked(Complement(f))[y]
    {
      forall x | 0 <= x < WIDTH
        ensures Flipped(Unpacked(f))[y][x] == Unpacked(Complement(f))[y][x]
      {
        ComplementSource(f, y / 8, x);
        NegativeBit(Source(f.0, f.1, y / 8, x), y % 8);
      }
    }
  }

  lemma {:induction false} SameBits(x: nat, y: nat, n: nat)
    requires x < Pow2(n) && y < Pow2(n) && forall k :: 0 <= k < n ==> Bit(x, k) == Bit(y, k)
    ensures x == y
  {
    if n > 0 {
      forall k | 0 <= k < n - 1
        ensures Bit(x / 2, k) == Bit(y / 2, k)
      {
        assert Bit(x, k + 1) == Bit(y, k + 1);
      }
      SameBits(x / 2, y / 2, n - 1);
      assert Bit(x, 0) == Bit(y, 0);
    }
  }

  /** Every bit of a frame's bytes can be seen. */
  lemma UnpackedInjective(a: Frame, b: Frame)
    ensures Unpacked(a) == Unpacked(b) <==> a == b
  {
    if Unpacked(a) == Unpacked(b) {
      forall page, col | 0 <= page < PAGES && 0 <= col < WIDTH
        ensures Source(a.0, a.1, page, col) == Source(b.0, b.1, page, col)
      {
        SameByte(a, b, page, col);
      }
      SameSources(a, b);
    }
  }

  lemma SameByte(a: Frame, b: Frame, page: nat, col: nat)
    requires Unpacked(a) == Unpacked(b) && page < PAGES && col < WIDTH
    ensures Source(a.0, a.1, page, col) == Source(b.0, b.1, page, col)
  {
    var x, y := Source(a.0, a.1, page, col), Source(b.0, b.1, page, col);
    forall k | 0 <= k < 8
      ensures Bit(x, k) == Bit(y, k)
    {
      var row := page * 8 + k;
      assert row / 8 == page && row % 8 == k;
      assert Unpacked(a)[row][col] == Unpacked(b)[row][col];
    }
    Pow2Byte();
    SameBits(x, y, 8);
  }

  lemma SameSources(a: Frame, b: Frame)
    requires forall page: nat, col: nat :: page < PAGES && col < WIDTH ==>
               Source(a.0, a.1, page, col) == Source(b.0, b.1, page, col)
    ensures a == b
  {
    forall i | 0 <= i < WIDTH
      ensures a.0[i] == b.0[i]
    {
      assert Source(a.0, a.1, 0, i) == Source(b.0, b.1, 0, i);
    }
    forall i | 0 <= i < 7 * WIDTH
      ensures a.1[i] == b.1[i]
    {
      assert Source(a.0, a.1, i / WIDTH + 1, i % WIDTH) == Source(b.0, b.1, i / WIDTH + 1, i % WIDTH);
    }
    assert a.0 == b.0 && a.1 == b.1;
  }

  // ------------------------------------------------ pictures that stay

  function Passes(first: Reading, later: Reading, n: nat): seq<Event>
  {
    if n == 0 then [] + [Snapshot] + [Panel(first)] + [Publish]
    else Passes(first, later, n - 1) + [Snapshot] + [Panel(later)] + [Publish]
  }

  /** Readings that store the same bytes are not published, whatever they would show. */
  lemma {:induction false} PictureStays(k: Codec, client: nat, f: nat, s: nat, first: Reading, later: Reading, n: nat)
    requires later.frame == first.frame
    ensures var p := Run(k, Start(Some(client), f, s), Passes(first, later, n));
            p.raw == Some(first.frame) && p.png == Some(k(Pictured(first))) && p.grabber.Some? && p.reader.Idle?
    decreases n
  {
    var p0 := Start(Some(client), f, s);
    if n == 0 {
      RunThree(k, p0, [], Panel(first));
    } else {
      PictureStays(k, client, f, s, first, later, n - 1);
      RunThree(k, p0, Passes(first, later, n - 1), Panel(later));
    }
  }

  /** When the memory changes between the two readings, the page shows a picture that is not the stored bytes',
      and steady readings afterwards do not repair it. */
  lemma TornPictureStays(k: Codec, client: nat, f: nat, s: nat, shown: Frame, frame: Frame, n: nat)
    requires Lossless(k) && shown != frame
    ensures var p := Run(k, Start(Some(client), f, s),
                         Passes(Reading(shown, false, frame), Reading(frame, false, frame), n));
            p.raw == Some(frame) && p.png.Some? && p.png != Some(k(Unpacked(frame)))
  {
    var first := Reading(shown, false, frame);
    PictureStays(k, client, f, s, first, Reading(frame, false, frame), n);
    SamePicture(first);
  }

  /** When the panel is switched to inverted with the memory left alone, the page goes on showing the old
      picture, however often the panel is read. */
  lemma OldPolarityStays(k: Codec, client: nat, f: nat, s: nat, frame: Frame, invert: bool, n: nat)
    requires Lossless(k)
    ensures var now := Reading(frame, !invert, frame);
            var p := Run(k, Start(Some(client), f, s), Passes(Reading(frame, invert, frame), now, n));
            p.png.Some? && p.png != Some(k(Pictured(now)))
  {
    var first, now := Reading(frame, invert, frame), Reading(frame, !invert, frame);
    PictureStays(k, client, f, s, first, now, n);
    FlippedIs(frame);
    UnpackedInjective(Complement(frame), frame);
    WhenFaithful(frame, frame);
    assert Pictured(first) != Pictured(now);
  }

  lemma RunThree(k: Codec, p: Pump, es: seq<Event>, e: Event)
    ensures Run(k, p, es + [Snapshot] + [e] + [Publish]) ==
            Step(k, Step(k, Step(k, Run(k, p, es), Snapshot), e), Publish)
  {
    RunOne(k, p, es, Snapshot);
    RunOne(k, p, es + [Snapshot], e);
    RunOne(k, p, es + [Snapshot] + [e], Publish);
  }

  lemma RunOne(k: Codec, p: Pump, es: seq<Event>, e: Event)
    ensures Run(k, p, es + [e]) == Step(k, Run(k, p, es), e)
  {
    assert (es + [e])[..|es|] == es;
  }
}
