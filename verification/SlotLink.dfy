/** Installing a firmware image over a serial link that loses messages. */
module SlotLink {
  import opened Bytearray
  import opened Wrappers
  import opened SlotDevice
  import Slots

  const CHUNK: nat := 200
  const TRIES: nat := 4
  const HANDSHAKES: nat := 6

  datatype Error = ImageTooLong | NoReply | Refused(status: nat) | CrcMismatch

  /** The commands that carry a blob: pieces of 200 bytes, each where the one before ended. */
  function Chunks(offset: nat, blob: Bytes): seq<Command>
    decreases |blob|
  {
    if blob == [] then []
    else
      var n := if |blob| < CHUNK then |blob| else CHUNK;
      [Write(offset, blob[..n])] + Chunks(offset + n, blob[n..])
  }

  /** The last reply of a kind in a batch. */
  function LastOf(batch: seq<Reply>, want: Kind): (r: Option<Reply>)
    ensures r.Some? ==> r.value.kind == want && exists i :: 0 <= i < |batch| && batch[i] == r.value
    ensures r.None? ==> forall i :: 0 <= i < |batch| ==> batch[i].kind != want
  {
    if batch == [] then None
    else if batch[|batch| - 1].kind == want then Some(batch[|batch| - 1])
    else LastOf(batch[..|batch| - 1], want)
  }

  /** What holds of the link and the device whatever they do, given how far the host has come: the plan, whether
      a validation has been sent, whether an acknowledgement of another command was taken for this one's, and
      whether a command was sent again. */
  predicate Sound(crc32: Slots.Crc32, net: Net, p: Plan, validating: bool, stale: bool, resent: bool)
  {
    && p.Valid()
    && Truthful(crc32, net)
    && (!validating ==> Unvalidated(net))
    && (!stale ==> OnTrack(net, p))
    && (!resent ==> !stale && Lone(net, p.tag))
  }

  /** Nothing but repeats of the command just carried out is under way. */
  predicate Rested(net: Net, p: Plan, stale: bool, resent: bool)
  {
    && (!stale ==> Reached(net.requests, net.mem, p))
    && (!resent ==> Idle(net))
  }

  lemma StepKeepsSound(crc32: Slots.Crc32, net: Net, e: Event, p: Plan, validating: bool, stale: bool, resent: bool)
    requires Sound(crc32, net, p, validating, stale, resent)
    ensures Sound(crc32, Step(crc32, net, e), p, validating, stale, resent)
    ensures Rested(net, p, stale, resent) ==> Rested(Step(crc32, net, e), p, stale, resent)
    ensures Settled(net.requests) ==> Settled(Step(crc32, net, e).requests) && Step(crc32, net, e).mem == net.mem
  {
    StepKeepsTruth(crc32, net, e);
    if !validating {
      StepKeepsUnvalidated(crc32, net, e);
    }
    if !stale {
      StepKeepsTrack(crc32, net, e, p);
    }
    if !resent {
      StepKeepsLone(crc32, net, e, p.tag);
      if Idle(net) {
        StepKeepsIdle(crc32, net, e);
      }
    }
  }

  /** Taking replies off the link changes nothing else. */
  lemma TakeKeepsSound(crc32: Slots.Crc32, net: Net, n: nat, p: Plan, validating: bool, stale: bool, resent: bool)
    requires n <= |net.replies| && Sound(crc32, net, p, validating, stale, resent)
    ensures Sound(crc32, net.(replies := net.replies[n..]), p, validating, stale, resent)
    ensures Rested(net, p, stale, resent) ==> Rested(net.(replies := net.replies[n..]), p, stale, resent)
  {
  }

  /** What an acknowledgement taken off the link tells. */
  predicate Told(crc32: Slots.Crc32, ack: Reply, net: Net, p: Plan, stale: bool, resent: bool)
  {
    && (!stale && Confirms(ack, p.tag) ==> Reached(net.requests, net.mem, p))
    && (!resent && Ack(ack) ==> ack.tag == p.tag && Idle(net))
    && (Vouches(ack) ==> Settled(net.requests) && ack.crc == crc32(Stored(net.mem)))
  }

  lemma TakeTells(crc32: Slots.Crc32, net: Net, n: nat, i: nat, p: Plan, validating: bool, stale: bool, resent: bool)
    requires i < n <= |net.replies| && Sound(crc32, net, p, validating, stale, resent)
    ensures Told(crc32, net.replies[i], net.(replies := net.replies[n..]), p, stale, resent)
  {
  }

  lemma SessionKeepsSound(crc32: Slots.Crc32, net: Net, p: Plan, validating: bool, stale: bool, resent: bool)
    requires Sound(crc32, net, p, validating, stale, resent)
    ensures Sound(crc32, net.(requests := net.requests + [Request(Session, p.tag)]), p, validating, stale, resent)
    ensures Rested(net, p, stale, resent) ==>
              Rested(net.(requests := net.requests + [Request(Session, p.tag)]), p, stale, resent)
    ensures Settled(net.requests) ==> Settled(net.requests + [Request(Session, p.tag)])
  {
    var q := Request(Session, p.tag);
    SendKeepsTruth(crc32, net, q);
    if !stale {
      SendKeepsTrack(net, q, p);
    }
  }

  lemma StartKeepsSound(crc32: Slots.Crc32, net: Net, p: Plan, c: Command, validating: bool, stale: bool, resent: bool)
    requires Sound(crc32, net, p, validating, stale, resent) && Rested(net, p, stale, resent)
    ensures Sound(crc32, net, p.Next(c), validating || c.Validate?, stale, resent)
  {
    NextValid(p, c);
    if !stale {
      NextCommand(net, p, c);
    }
  }

  lemma SendKeepsSound(crc32: Slots.Crc32, net: Net, p: Plan, validating: bool, stale: bool, resent: bool)
    requires Sound(crc32, net, p, validating, stale, resent) && !p.cur.Session?
    requires if p.cur.Validate? then validating else !validating
    requires !resent ==> Idle(net)
    ensures Sound(crc32, net.(requests := net.requests + [Request(p.cur, p.tag)]), p, validating, stale, resent)
  {
    var q := Request(p.cur, p.tag);
    var sent := net.(requests := net.requests + [q]);
    if p.cur.Validate? {
      SendKeepsTruth(crc32, net, q);
    } else {
      assert Unvalidated(sent);
      UnvalidatedIsTruthful(crc32, sent);
    }
    if !stale {
      SendKeepsTrack(net, q, p);
    }
    if !resent {
      assert Lone(sent, p.tag);
    }
  }

  // ------------------------------------------------ what the host does, and what that amounts to

  /** What the host does to the link, and what happens to it. A command is sent, or sent again; a session is asked
      for; so many replies are taken off the link. */
  datatype Act = Send(command: Command) | Again | Hello | Take(count: nat) | Happen(event: Event)

  predicate Unvalidating(cs: seq<Command>) { forall i :: 0 <= i < |cs| ==> !cs[i].Validate? }

  /** What the host does lest the device leaves its serial mode: whether a command was ever sent again with no session
      asked for in between; how many commands have been sent since one was asked for; and the most there ever were. */
  datatype Care = Care(curt: bool, run: nat, longest: nat)

  function Most(a: nat, b: nat): nat { if a < b then b else a }

  /** The link and the device; the request whose answer is awaited, and the answer; the commands sent, repeats left
      out; how often the last one was sent, and sessions asked for since; whether any was sent again; whether an
      acknowledgement of another command was taken for the awaited one's; and the care taken. */
  datatype Account = Account(net: Net, awaited: Option<Request>, answer: Option<Reply>, commands: seq<Command>,
                             tries: nat, hellos: nat, resent: bool, stale: bool, care: Care)
  {
    predicate Validated() { !Unvalidating(commands) }

    function Latest(): Command { if commands == [] then Session else commands[|commands| - 1] }

    /** Commands are numbered from one. */
    function Asked(q: Request): Account
    {
      this.(net := net.(requests := net.requests + [q]), awaited := Some(q), answer := None)
    }
  }

  /** The reply taken for the awaited one answers another command. */
  predicate StaleAck(awaited: Option<Request>, ack: Option<Reply>)
  {
    awaited.Some? && Work(awaited.value) && ack.Some? && ack.value.tag != awaited.value.tag
  }

  /** The reply that ends the wait, if there is one among those taken. */
  function Answering(awaited: Option<Request>, batch: seq<Reply>): Option<Reply>
  {
    if awaited.None? then None else LastOf(batch, AckOf(awaited.value.command))
  }

  function Counted(c: Care): Care { c.(run := c.run + 1, longest := Most(c.longest, c.run + 1)) }

  function Repeated(c: Care, hellos: nat): Care { c.(curt := c.curt || hellos == 0) }

  /** No repeat without a session, and at most n commands more without one. */
  predicate Attended(c: Care, d: Care, n: nat)
  {
    d.curt == c.curt && d.run <= c.run + n && d.longest <= Most(c.longest, c.run + n)
  }

  function Enter(crc32: Slots.Crc32, a: Account, act: Act): Account
  {
    match act
    case Send(c) =>
      a.(commands := a.commands + [c], tries := 1, hellos := 0, care := Counted(a.care))
       .Asked(Request(c, |a.commands| + 1))
    case Again =>
      a.(resent := true, tries := a.tries + 1, hellos := 0, care := Repeated(a.care, a.hellos))
       .Asked(Request(a.Latest(), |a.commands|))
    case Hello => a.(hellos := a.hellos + 1, care := a.care.(run := 0)).Asked(Request(Session, |a.commands|))
    case Take(n) =>
      if n > |a.net.replies| then a
      else
        var ack := Answering(a.awaited, a.net.replies[..n]);
        a.(net := a.net.(replies := a.net.replies[n..]), answer := ack, stale := a.stale || StaleAck(a.awaited, ack))
    case Happen(e) => a.(net := Step(crc32, a.net, e))
  }

  /** What a history amounts to, from a quiet link on. */
  function Run(crc32: Slots.Crc32, mem: Bytes, acts: seq<Act>): Account
    decreases |acts|
  {
    if acts == [] then Account(Net([], [], mem), None, None, [], 0, 0, false, false, Care(false, 0, 0))
    else Enter(crc32, Run(crc32, mem, acts[..|acts| - 1]), acts[|acts| - 1])
  }

  lemma OneMoreAct(crc32: Slots.Crc32, mem: Bytes, acts: seq<Act>, act: Act)
    ensures Run(crc32, mem, acts + [act]) == Enter(crc32, Run(crc32, mem, acts), act)
  {
    assert (acts + [act])[..|acts|] == acts;
  }

  /** What the slot holds once the commands have been carried out one after the other. */
  function Carried(mem: Bytes, cs: seq<Command>): (r: Bytes)
    ensures |r| == |mem|
  {
    if cs == [] then mem else Effect(Carried(mem, cs[..|cs| - 1]), cs[|cs| - 1])
  }

  lemma CarriedMore(mem: Bytes, cs: seq<Command>, c: Command)
    ensures Carried(mem, cs + [c]) == Effect(Carried(mem, cs), c)
  {
    assert (cs + [c])[..|cs|] == cs;
  }

  lemma {:induction false} CarriedBoth(mem: Bytes, xs: seq<Command>, ys: seq<Command>)
    ensures Carried(mem, xs + ys) == Carried(Carried(mem, xs), ys)
    decreases |ys|
  {
    if ys == [] {
      assert xs + ys == xs;
    } else {
      var front, last := ys[..|ys| - 1], ys[|ys| - 1];
      CarriedBoth(mem, xs, front);
      CarriedMore(mem, xs + front, last);
      assert xs + front + [last] == xs + ys;
    }
  }

  lemma CarriedOne(mem: Bytes, c: Command)
    ensures Carried(mem, [c]) == Effect(mem, c)
  {
    CarriedMore(mem, [], c);
    assert [] + [c] == [c];
  }

  lemma {:induction false} CarriedChunks(mem: Bytes, offset: nat, blob: Bytes)
    ensures Carried(mem, Chunks(offset, blob)) == Program(mem, offset, blob)
    decreases |blob|
  {
    if blob == [] {
      ProgramNothing(mem, offset);
    } else {
      var n := if |blob| < CHUNK then |blob| else CHUNK;
      var first := Write(offset, blob[..n]);
      CarriedBoth(mem, [first], Chunks(offset + n, blob[n..]));
      CarriedOne(mem, first);
      CarriedChunks(Program(mem, offset, blob[..n]), offset + n, blob[n..]);
      ProgramJoins(mem, offset, blob[..n], blob[n..]);
      assert blob[..n] + blob[n..] == blob;
    }
  }

  /** The plan is at the last command sent, and its contents are those of all the commands sent. */
  predicate Follows(p: Plan, mem: Bytes, a: Account)
  {
    p.tag == |a.commands| && p.cur == a.Latest() && p.after == Carried(mem, a.commands)
  }

  /** The link is as the history says, and all is sound. */
  ghost predicate Consistent(crc32: Slots.Crc32, mem: Bytes, acts: seq<Act>, net: Net, p: Plan)
  {
    var a := Run(crc32, mem, acts);
    net == a.net && Follows(p, mem, a) && Sound(crc32, net, p, a.Validated(), a.stale, a.resent)
  }

  lemma HappenKeeps(crc32: Slots.Crc32, mem: Bytes, acts: seq<Act>, net: Net, p: Plan, e: Event)
    requires Consistent(crc32, mem, acts, net, p)
    ensures Consistent(crc32, mem, acts + [Happen(e)], Step(crc32, net, e), p)
    ensures Run(crc32, mem, acts + [Happen(e)]) == Run(crc32, mem, acts).(net := Step(crc32, net, e))
    ensures var a := Run(crc32, mem, acts);
            Rested(net, p, a.stale, a.resent) ==> Rested(Step(crc32, net, e), p, a.stale, a.resent)
    ensures Settled(net.requests) ==> Settled(Step(crc32, net, e).requests) && Step(crc32, net, e).mem == net.mem
  {
    var a := Run(crc32, mem, acts);
    StepKeepsSound(crc32, net, e, p, a.Validated(), a.stale, a.resent);
    OneMoreAct(crc32, mem, acts, Happen(e));
  }

  lemma HelloKeeps(crc32: Slots.Crc32, mem: Bytes, acts: seq<Act>, net: Net, p: Plan)
    requires Consistent(crc32, mem, acts, net, p)
    ensures var a, q := Run(crc32, mem, acts), Request(Session, p.tag);
            var asked := net.(requests := net.requests + [q]);
            && Consistent(crc32, mem, acts + [Hello], asked, p)
            && Run(crc32, mem, acts + [Hello]) ==
               a.(net := asked, awaited := Some(q), answer := None, hellos := a.hellos + 1,
                  care := a.care.(run := 0))
            && (Rested(net, p, a.stale, a.resent) ==> Rested(asked, p, a.stale, a.resent))
            && (Settled(net.requests) ==> Settled(asked.requests))
  {
    var a := Run(crc32, mem, acts);
    SessionKeepsSound(crc32, net, p, a.Validated(), a.stale, a.resent);
    OneMoreAct(crc32, mem, acts, Hello);
  }

  lemma AnswerTells(crc32: Slots.Crc32, net: Net, n: nat, want: Kind, p: Plan, validating: bool, stale: bool,
                    resent: bool)
    requires n <= |net.replies| && Sound(crc32, net, p, validating, stale, resent)
    ensures var ack := LastOf(net.replies[..n], want);
            ack.Some? ==> Told(crc32, ack.value, net.(replies := net.replies[n..]), p, stale, resent)
  {
    var ack := LastOf(net.replies[..n], want);
    if ack.Some? {
      var i :| 0 <= i < n && net.replies[..n][i] == ack.value;
      TakeTells(crc32, net, n, i, p, validating, stale, resent);
    }
  }

  lemma TakeKeeps(crc32: Slots.Crc32, mem: Bytes, acts: seq<Act>, net: Net, p: Plan, q: Request, n: nat)
    requires Consistent(crc32, mem, acts, net, p) && n <= |net.replies|
    requires Run(crc32, mem, acts).awaited == Some(q) && (Work(q) ==> q.tag == p.tag)
    ensures var a, b := Run(crc32, mem, acts), Run(crc32, mem, acts + [Act.Take(n)]);
            var left, ack := net.(replies := net.replies[n..]), LastOf(net.replies[..n], AckOf(q.command));
            && Consistent(crc32, mem, acts + [Act.Take(n)], left, p)
            && b == a.(net := left, answer := ack, stale := a.stale || StaleAck(Some(q), ack))
            && (Rested(net, p, a.stale, a.resent) ==> Rested(left, p, b.stale, b.resent))
            && (ack.Some? ==> Told(crc32, ack.value, left, p, b.stale, b.resent))
  {
    var a := Run(crc32, mem, acts);
    TakeKeepsSound(crc32, net, n, p, a.Validated(), a.stale, a.resent);
    AnswerTells(crc32, net, n, AckOf(q.command), p, a.Validated(), a.stale, a.resent);
    OneMoreAct(crc32, mem, acts, Act.Take(n));
  }

  lemma BeginSound(crc32: Slots.Crc32, mem: Bytes, a: Account, b: Account, p: Plan, c: Command)
    requires Follows(p, mem, a) && Sound(crc32, a.net, p, a.Validated(), a.stale, a.resent)
    requires Rested(a.net, p, a.stale, a.resent) && !c.Session? && !a.Validated()
    requires b.commands == a.commands + [c] && b.stale == a.stale && b.resent == a.resent
    requires b.net == a.net.(requests := a.net.requests + [Request(c, p.tag + 1)])
    ensures Follows(p.Next(c), mem, b) && Sound(crc32, b.net, p.Next(c), b.Validated(), b.stale, b.resent)
  {
    OneMoreCommand(a, c, mem);
    StartKeepsSound(crc32, a.net, p, c, false, a.stale, a.resent);
    SendKeepsSound(crc32, a.net, p.Next(c), c.Validate?, a.stale, a.resent);
  }

  lemma BeginKeeps(crc32: Slots.Crc32, mem: Bytes, acts: seq<Act>, net: Net, p: Plan, c: Command)
    requires Consistent(crc32, mem, acts, net, p) && !c.Session? && !Run(crc32, mem, acts).Validated()
    requires Rested(net, p, Run(crc32, mem, acts).stale, Run(crc32, mem, acts).resent)
    ensures var a, q := Run(crc32, mem, acts), Request(c, p.tag + 1);
            var asked := net.(requests := net.requests + [q]);
            && Consistent(crc32, mem, acts + [Act.Send(c)], asked, p.Next(c))
            && Run(crc32, mem, acts + [Act.Send(c)]) ==
               a.(net := asked, awaited := Some(q), answer := None, commands := a.commands + [c], tries := 1,
                  hellos := 0, care := Counted(a.care))
  {
    var a := Run(crc32, mem, acts);
    OneMoreAct(crc32, mem, acts, Act.Send(c));
    BeginSound(crc32, mem, a, Enter(crc32, a, Act.Send(c)), p, c);
  }

  lemma AgainKeeps(crc32: Slots.Crc32, mem: Bytes, acts: seq<Act>, net: Net, p: Plan, c: Command)
    requires Consistent(crc32, mem, acts, net, p) && c == p.cur && !c.Session?
    requires Run(crc32, mem, acts).Validated() == c.Validate? && Run(crc32, mem, acts).commands != []
    ensures var a, q := Run(crc32, mem, acts), Request(c, p.tag);
            var asked := net.(requests := net.requests + [q]);
            && Consistent(crc32, mem, acts + [Again], asked, p)
            && Run(crc32, mem, acts + [Again]) ==
               a.(net := asked, awaited := Some(q), answer := None, tries := a.tries + 1, hellos := 0, resent := true,
                  care := Repeated(a.care, a.hellos))
  {
    SendKeepsSound(crc32, net, p, c.Validate?, Run(crc32, mem, acts).stale, true);
    OneMoreAct(crc32, mem, acts, Again);
  }

  lemma CaughtUp(crc32: Slots.Crc32, mem: Bytes, acts: seq<Act>, net: Net, p: Plan)
    requires Consistent(crc32, mem, acts, net, p) && !Run(crc32, mem, acts).stale
    requires Rested(net, p, Run(crc32, mem, acts).stale, Run(crc32, mem, acts).resent)
    ensures var cs := Run(crc32, mem, acts).commands;
            net.mem == Carried(mem, cs) && Caught(net.requests, |cs|)
  {
  }

  /** So many sessions have been asked for, and no command sent. */
  predicate Greeted(a: Account, b: Account, n: int)
  {
    && b.commands == a.commands && b.tries == a.tries && b.resent == a.resent && b.stale == a.stale
    && b.hellos == a.hellos + n && b.care == a.care.(run := 0)
  }

  lemma AttendedJoin(c: Care, d: Care, e: Care, m: nat, n: nat)
    requires Attended(c, d, m) && Attended(d, e, n)
    ensures Attended(c, e, m + n)
  {
  }

  /** After so many pieces of a blob, with a fresh session before every twenty-fifth but the first. */
  predicate Kept(c: Care, d: Care, pieces: nat)
  {
    && d.curt == c.curt && d.longest <= Most(c.longest, c.run + 25)
    && d.run <= if pieces <= 25 then c.run + pieces else (pieces - 1) % 25 + 1
  }

  /** One more piece keeps it, behind a session if one is due. */
  lemma PieceKept(c: Care, d: Care, pieces: nat)
    requires pieces > 0 && Kept(c, d, pieces - 1)
    ensures Kept(c, d.(run := 0), pieces)
    ensures forall e: Care ::
              Attended(if pieces > 1 && (pieces - 1) % 25 == 0 then d.(run := 0) else d, e, 1) ==> Kept(c, e, pieces)
  {
  }

  lemma KeptIsAttended(c: Care, d: Care, pieces: nat)
    requires Kept(c, d, pieces)
    ensures Attended(c, d, 25)
  {
    assert pieces > 25 ==> (pieces - 1) % 25 < 25;
  }

  class Radio {
    const crc32: Slots.Crc32
    var net: Net
    // for the statements only
    var tag: int
    ghost const start: Bytes
    ghost var history: seq<Act>
    ghost var plan: Plan

    /** What has been done since the link was quiet amounts to this. */
    ghost function Tally(): Account
      reads this
    {
      Run(crc32, start, history)
    }

    ghost predicate Inv()
      reads this
    {
      tag == plan.tag && Consistent(crc32, start, history, net, plan)
    }

    ghost predicate Ready()
      reads this
    {
      Inv() && Rested(net, plan, Tally().stale, Tally().resent)
    }

    /** A quiet link to a device with the given slot contents. */
    constructor (crc32: Slots.Crc32, mem: Bytes)
      ensures Ready() && history == [] && start == net.mem == mem && this.crc32 == crc32
    {
      this.crc32 := crc32;
      net := Net([], [], mem);
      tag := 0;
      start, history := mem, [];
      plan := Plan(0, Session, Session, mem, mem);
    }

    /** The link or the device does one of the things it can. */
    method OneEvent()
      requires Inv()
      modifies this`net, this`history
      ensures Inv() && old(history) <= history && Tally() == old(Tally()).(net := net)
      ensures old(Ready()) ==> Ready()
      ensures old(Settled(net.requests)) ==> Settled(net.requests) && net.mem == old(net.mem)
    {
      var e: Event := *;
      HappenKeeps(crc32, start, history, net, plan, e);
      net := Step(crc32, net, e);
      history := history + [Happen(e)];
    }

    /** The link and the device do some of what they can. */
    method Elapse()
      requires Inv()
      modifies this`net, this`history
      ensures Inv() && old(history) <= history && Tally() == old(Tally()).(net := net)
      ensures old(Ready()) ==> Ready()
      ensures old(Settled(net.requests)) ==> Settled(net.requests) && net.mem == old(net.mem)
    {
      var n: nat := *;
      while n > 0
        invariant Inv() && old(history) <= history && Tally() == old(Tally()).(net := net)
        invariant old(Ready()) ==> Ready()
        invariant old(Settled(net.requests)) ==> Settled(net.requests) && net.mem == old(net.mem)
      {
        OneEvent();
        n := n - 1;
      }
    }

    /** Take what has arrived, and keep the last reply of the wanted kind. */
    method Take(want: Kind) returns (ack: Option<Reply>)
      requires Inv() && Tally().awaited.Some? && want == AckOf(Tally().awaited.value.command)
      requires Work(Tally().awaited.value) ==> Tally().awaited.value.tag == tag
      modifies this`net, this`history
      ensures Inv() && old(history) <= history
      ensures Tally() == old(Tally()).(net := net, answer := ack,
                                       stale := old(Tally().stale) || StaleAck(old(Tally().awaited), ack))
      ensures old(Ready()) ==> Ready()
      ensures ack.Some? ==> ack.value.kind == want && Told(crc32, ack.value, net, plan, Tally().stale, Tally().resent)
      ensures net.requests == old(net.requests) && net.mem == old(net.mem)
    {
      var n :| 0 <= n <= |net.replies|;
      ack := LastOf(net.replies[..n], want);
      TakeKeeps(crc32, start, history, net, plan, Tally().awaited.value, n);
      net := net.(replies := net.replies[n..]);
      history := history + [Act.Take(n)];
    }

    /** Wait for a reply: from time to time take what has arrived, and stop at the first batch that holds one
        of the wanted kind. Everything else that was taken is dropped. */
    method Pump(want: Kind) returns (ack: Option<Reply>)
      requires Inv() && Tally().awaited.Some? && want == AckOf(Tally().awaited.value.command)
      requires Work(Tally().awaited.value) ==> Tally().awaited.value.tag == tag
      requires Tally().answer.None?
      modifies this`net, this`history
      ensures Inv() && old(history) <= history
      ensures Tally() == old(Tally()).(net := net, answer := ack,
                                       stale := old(Tally().stale) || StaleAck(old(Tally().awaited), ack))
      ensures old(Ready()) ==> Ready()
      ensures ack.Some? ==> ack.value.kind == want && Told(crc32, ack.value, net, plan, Tally().stale, Tally().resent)
      ensures old(Settled(net.requests)) ==> Settled(net.requests) && net.mem == old(net.mem)
    {
      ack := None;
      var polls: nat := *;
      ghost var a := Tally();
      while polls > 0 && ack.None?
        invariant Inv() && old(history) <= history
        invariant Tally() == a.(net := net, answer := ack, stale := a.stale || StaleAck(a.awaited, ack))
        invariant old(Ready()) ==> Ready()
        invariant ack.Some? ==> ack.value.kind == want && Told(crc32, ack.value, net, plan, Tally().stale, a.resent)
        invariant old(Settled(net.requests)) ==> Settled(net.requests) && net.mem == old(net.mem)
        decreases polls
      {
        Elapse();
        ack := Take(want);
        polls := polls - 1;
      }
    }

    method Ask()
      requires Inv()
      modifies this`net, this`history
      ensures Inv() && old(history) <= history
      ensures net == old(net.(requests := net.requests + [Request(Session, tag)]))
      ensures Tally() == old(Tally()).(net := net, awaited := Some(Request(Session, tag)), answer := None,
                                       hellos := old(Tally().hellos) + 1, care := old(Tally().care).(run := 0))
      ensures old(Ready()) ==> Ready()
      ensures old(Settled(net.requests)) ==> Settled(net.requests)
    {
      HelloKeeps(crc32, start, history, net, plan);
      net := net.(requests := net.requests + [Request(Session, tag)]);
      history := history + [Hello];
    }

    method SessionOnce() returns (ok: bool)
      requires Inv()
      modifies this`net, this`history
      ensures Inv() && old(history) <= history
      ensures Greeted(old(Tally()), Tally(), 1) && (!ok ==> Tally().answer.None?)
      ensures old(Ready()) ==> Ready()
      ensures old(Settled(net.requests)) ==> Settled(net.requests) && net.mem == old(net.mem)
    {
      Ask();
      var ack := Pump(SessionAck);
      ok := ack.Some?;
    }

    /** 0x0514, up to six times. */
    method Handshake() returns (ok: bool)
      requires Inv()
      modifies this`net, this`history
      ensures Inv() && old(history) <= history
      ensures Tally().hellos > old(Tally().hellos)
      ensures Greeted(old(Tally()), Tally(), Tally().hellos - old(Tally().hellos))
      ensures !ok ==> Tally().hellos == old(Tally().hellos) + HANDSHAKES && Tally().answer.None?
      ensures old(Ready()) ==> Ready()
      ensures old(Settled(net.requests)) ==> Settled(net.requests) && net.mem == old(net.mem)
    {
      ok := SessionOnce();
      var attempt := 1;
      while attempt < HANDSHAKES && !ok
        invariant Inv() && old(history) <= history
        invariant 1 <= attempt <= HANDSHAKES && Greeted(old(Tally()), Tally(), attempt)
        invariant !ok ==> Tally().answer.None?
        invariant old(Ready()) ==> Ready()
        invariant old(Settled(net.requests)) ==> Settled(net.requests) && net.mem == old(net.mem)
        decreases HANDSHAKES - attempt
      {
        ok := SessionOnce();
        attempt := attempt + 1;
      }
    }

    /** Send a command for the first time. */
    method Begin(c: Command)
      requires Ready() && !c.Session? && !Tally().Validated()
      modifies this
      ensures Inv() && old(history) <= history
      ensures Tally() == old(Tally()).(net := net, awaited := Some(Request(c, tag)), answer := None,
                                       commands := old(Tally().commands) + [c], tries := 1, hellos := 0,
                                       care := Counted(old(Tally().care)))
      ensures plan == old(plan).Next(c)
    {
      BeginKeeps(crc32, start, history, net, plan, c);
      tag, plan := tag + 1, plan.Next(c);
      net := net.(requests := net.requests + [Request(c, tag)]);
      history := history + [Act.Send(c)];
    }

    /** Send it again. */
    method Repeat(c: Command)
      requires Inv() && c == plan.cur && !c.Session? && Tally().Validated() == c.Validate? && Tally().commands != []
      modifies this`net, this`history
      ensures Inv() && old(history) <= history
      ensures Tally() == old(Tally()).(net := net, awaited := Some(Request(c, tag)), answer := None,
                                       tries := old(Tally().tries) + 1, hellos := 0, resent := true,
                                       care := Repeated(old(Tally().care), old(Tally().hellos)))
    {
      AgainKeeps(crc32, start, history, net, plan, c);
      net := net.(requests := net.requests + [Request(c, tag)]);
      history := history + [Again];
    }

    /** One try: send the command, or send it again, and wait for its acknowledgement. */
    method Attempt(c: Command, first: bool) returns (ack: Option<Reply>)
      requires !c.Session?
      requires if first then Ready() && !Tally().Validated()
               else Inv() && Current(Tally(), c) && Tally().hellos > 0
      modifies this
      ensures Inv() && old(history) <= history
      ensures Tally().commands == old(Tally().commands) + (if first then [c] else []) && Current(Tally(), c)
      ensures Tally().care == if first then Counted(old(Tally().care)) else old(Tally().care)
      ensures Tally().tries == (if first then 1 else old(Tally().tries) + 1)
      ensures ack == Tally().answer && Tally().awaited == Some(Request(c, |Tally().commands|))
      ensures ack.Some? ==> ack.value.kind == AckOf(c)
      ensures ack.Some? && ack.value.status == 0 ==> Ready()
      ensures ack.Some? && Vouches(ack.value) ==> Settled(net.requests) && ack.value.crc == crc32(Stored(net.mem))
    {
      if first {
        Begin(c);
        CommandAdded(old(Tally()), Tally(), c);
      } else {
        Repeat(c);
      }
      ack := Pump(AckOf(c));
    }

    /** A try, and a fresh session after it if it goes without an answer and is not the last. */
    method OneTry(c: Command, attempt: nat) returns (ack: Option<Reply>)
      requires !c.Session? && attempt < TRIES
      requires if attempt == 0 then Ready() && !Tally().Validated()
               else Inv() && Current(Tally(), c) && Tally().tries == attempt && Tally().hellos > 0
      modifies this
      ensures Inv() && old(history) <= history
      ensures Attended(old(Tally().care), Tally().care, if attempt == 0 then 1 else 0)
      ensures ack.None? && attempt + 1 < TRIES ==> Tally().hellos > 0
      ensures Tally().commands == old(Tally().commands) + (if attempt == 0 then [c] else []) && Current(Tally(), c)
      ensures Tally().tries == attempt + 1
      ensures ack.Some? || attempt + 1 == TRIES ==>
                ack == Tally().answer && Tally().awaited == Some(Request(c, |Tally().commands|))
      ensures ack.Some? ==> ack.value.kind == AckOf(c)
      ensures ack.Some? && ack.value.status == 0 ==> Ready()
      ensures ack.Some? && Vouches(ack.value) ==> Settled(net.requests) && ack.value.crc == crc32(Stored(net.mem))
    {
      ack := Attempt(c, attempt == 0);
      if ack.None? && attempt + 1 < TRIES {
        var ok := Handshake();
      }
    }

    /** The tries after the first. */
    method TryAgain(c: Command) returns (ack: Option<Reply>)
      requires !c.Session? && Inv() && Current(Tally(), c) && Tally().tries == 1 && Tally().hellos > 0
      modifies this
      ensures Inv() && old(history) <= history && Tally().commands == old(Tally().commands)
      ensures Attended(old(Tally().care), Tally().care, 0)
      ensures ack == Tally().answer && Tally().awaited == Some(Request(c, |Tally().commands|))
      ensures ack.None? ==> Tally().tries == 4
      ensures ack.Some? ==> ack.value.kind == AckOf(c)
      ensures ack.Some? && ack.value.status == 0 ==> Ready()
      ensures ack.Some? && Vouches(ack.value) ==> Settled(net.requests) && ack.value.crc == crc32(Stored(net.mem))
    {
      ack := OneTry(c, 1);
      var attempt := 2;
      while attempt < TRIES && ack.None?
        invariant old(history) <= history && Inv() && Current(Tally(), c)
        invariant Tally().commands == old(Tally().commands) && Attended(old(Tally().care), Tally().care, 0)
        invariant ack.None? && attempt < TRIES ==> Tally().hellos > 0
        invariant 1 < attempt <= TRIES && Tally().tries == attempt
        invariant ack.Some? || attempt == TRIES ==>
                    ack == Tally().answer && Tally().awaited == Some(Request(c, |Tally().commands|))
        invariant ack.Some? ==> ack.value.kind == AckOf(c)
        invariant ack.Some? && ack.value.status == 0 ==> Ready()
        invariant ack.Some? && Vouches(ack.value) ==> Settled(net.requests) && ack.value.crc == crc32(Stored(net.mem))
      {
        ack := OneTry(c, attempt);
        attempt := attempt + 1;
      }
    }

    /** Send a command and wait for its acknowledgement, up to four times, with a fresh session in between. */
    method Command(c: Command) returns (ack: Option<Reply>)
      requires Ready() && !c.Session? && !Tally().Validated()
      modifies this
      ensures Inv() && old(history) <= history && Tally().commands == old(Tally().commands) + [c]
      ensures Attended(old(Tally().care), Tally().care, 1)
      ensures ack == Tally().answer && Tally().awaited == Some(Request(c, |Tally().commands|))
      ensures ack.None? ==> Tally().tries == 4
      ensures ack.Some? ==> ack.value.kind == AckOf(c)
      ensures ack.Some? && ack.value.status == 0 ==> Ready()
      ensures ack.Some? && ack.value.status == 0 && !Tally().stale ==>
                net.mem == Carried(start, Tally().commands) && Caught(net.requests, |Tally().commands|)
      ensures ack.Some? && Vouches(ack.value) ==> Settled(net.requests) && ack.value.crc == crc32(Stored(net.mem))
    {
      ack := OneTry(c, 0);
      if ack.None? {
        ack := TryAgain(c);
      }
      if ack.Some? && ack.value.status == 0 && !Tally().stale {
        CaughtUp(crc32, start, history, net, plan);
      }
    }

    /** A command whose answer must have status zero. */
    method Perform(c: Command) returns (e: Option<Error>)
      requires Ready() && !c.Session? && !Tally().Validated()
      modifies this
      ensures Inv() && old(history) <= history && Tally().commands == old(Tally().commands) + [c]
      ensures Attended(old(Tally().care), Tally().care, 1)
      ensures e.Some? ==> e != Some(CrcMismatch) && Explained(Tally(), e.value)
      ensures e.None? ==> Ready()
    {
      var ack := Command(c);
      e := if ack.None? then Some(NoReply) else if ack.value.status != 0 then Some(Refused(ack.value.status)) else None;
    }

    /** One piece, with a fresh session before every twenty-fifth but the first. */
    method WritePiece(offset: nat, blob: Bytes, begin: nat, end: nat, pieces: nat, ghost log: seq<Command>,
                      ghost care: Care)
      returns (e: Option<Error>)
      requires pieces > 0 && Kept(care, Tally().care, pieces - 1)
      ensures Kept(care, Tally().care, pieces)
      requires begin < |blob| && end == if begin + CHUNK < |blob| then begin + CHUNK else |blob|
      requires Ready() && Unvalidating(log) && Written(log, offset, blob, begin, Tally().commands)
      modifies this
      ensures Inv() && old(history) <= history
      ensures e.Some? ==> e != Some(CrcMismatch) && Explained(Tally(), e.value)
      ensures e.None? ==> Ready() && Written(log, offset, blob, end, Tally().commands)
    {
      SentUnvalidated(log, offset, blob, begin, Tally().commands);
      PieceKept(care, Tally().care, pieces);
      if pieces > 1 && (pieces - 1) % 25 == 0 {
        var ok := Handshake();
        if !ok {
          return Some(NoReply);
        }
      }
      e := Perform(SlotDevice.Write(offset + begin, blob[begin..end]));
      if e.None? {
        OneMorePiece(log, offset, blob, begin, end, old(Tally().commands), Tally().commands);
      }
    }

    /** Write a blob in pieces. */
    method Write(offset: nat, blob: Bytes) returns (e: Option<Error>)
      requires Ready() && !Tally().Validated()
      modifies this
      ensures Inv() && old(history) <= history
      ensures e.Some? ==> e != Some(CrcMismatch) && Explained(Tally(), e.value)
      ensures e.None? ==> Ready() && Tally().commands == old(Tally().commands) + Chunks(offset, blob)
      ensures e.None? && !Tally().stale ==> net.mem == Program(Carried(start, old(Tally().commands)), offset, blob)
      ensures Attended(old(Tally().care), Tally().care, 25)
    {
      var begin, pieces := 0, 0;
      e := None;
      ghost var log, care := Tally().commands, Tally().care;
      NothingWritten(log, offset, blob);
      while begin < |blob| && e.None?
        invariant 0 <= begin <= |blob| && Inv() && old(history) <= history
        invariant e.Some? ==> e != Some(CrcMismatch) && Explained(Tally(), e.value)
        invariant e.None? ==> Ready() && Written(log, offset, blob, begin, Tally().commands)
        invariant pieces >= 0 && Kept(care, Tally().care, pieces)
        decreases |blob| - begin
      {
        pieces := pieces + 1;
        var end := if begin + CHUNK < |blob| then begin + CHUNK else |blob|;
        e := WritePiece(offset, blob, begin, end, pieces, log, care);
        begin := end;
      }
      KeptIsAttended(care, Tally().care, pieces);
      if e.None? {
        WrittenOut(start, log, offset, blob, Tally().commands);
      }
    }

    /** Erase, write the header and the image, validate. If the device vouches for what it has stored, nothing under
        way can still change that; exactly the commands of the script were sent; and the install succeeds exactly if
        the CRC of what is stored is the image's. If in all that was done no acknowledgement of another command was
        taken for the awaited one, and so in particular if no command was sent again, the slot then holds the header
        and the image and nothing else, and the install succeeds. */
    method Install(image: Bytes, name: string, version: string) returns (r: Result<nat, Error>)
      requires Ready() && !Tally().Validated() && |start| == STRIDE
      modifies this
      ensures Inv() && old(history) <= history
      ensures r == Err(ImageTooLong) <==> |image| > Slots.ROOM
      ensures |image| > Slots.ROOM ==> history == old(history) && net == old(net)
      ensures |image| <= Slots.ROOM ==> if r.Ok? then Answered(Tally()) else Explained(Tally(), r.error)
      ensures Vouched(r) ==>
                var header := Slots.BuildHeader(crc32, image, name, version).value;
                && Settled(net.requests) && Tally().commands == old(Tally().commands) + Script(header, image)
                && (r.Ok? <==> crc32(Stored(net.mem)) == crc32(image)) && (r.Ok? ==> r.value == crc32(image))
                && (!Tally().stale ==> r.Ok? && net.mem == Slots.Place(Slots.Erased(STRIDE), 0, header, image))
      ensures !Tally().resent ==> !Tally().stale
      ensures Attended(old(Tally().care), Tally().care, 52)
    {
      var header := Slots.BuildHeader(crc32, image, name, version);
      if header.Err? {
        return Err(ImageTooLong);
      }
      r := Transfer(header.value, image);
      if Vouched(r) {
        ScriptCarried(Carried(start, old(Tally().commands)), header.value, image);
        CarriedBoth(start, old(Tally().commands), Script(header.value, image));
        if !Tally().stale {
          InstalledIsStored(crc32, image, name, version, header.value, net.mem);
        }
      }
    }

    method WriteBoth(header: Bytes, image: Bytes) returns (e: Option<Error>)
      requires Ready() && !Tally().Validated()
      modifies this
      ensures Inv() && old(history) <= history
      ensures e.Some? ==> e != Some(CrcMismatch) && Explained(Tally(), e.value)
      ensures e.None? ==> Ready() && !Tally().Validated()
      ensures e.None? ==>
                Tally().commands == old(Tally().commands) + Chunks(0, header) + Chunks(Slots.IMAGE_OFFSET, image)
      ensures Attended(old(Tally().care), Tally().care, 50)
    {
      ghost var log := Tally().commands;
      e := Write(0, header);
      if e.None? {
        BlobUnvalidating(log, 0, header);
        ghost var mid := Tally().commands;
        e := Write(Slots.IMAGE_OFFSET, image);
        BlobUnvalidating(mid, Slots.IMAGE_OFFSET, image);
      }
    }

    method Lay(header: Bytes, image: Bytes) returns (e: Option<Error>)
      requires Ready() && !Tally().Validated()
      modifies this
      ensures Inv() && old(history) <= history
      ensures e.Some? ==> e != Some(CrcMismatch) && Explained(Tally(), e.value)
      ensures e.None? ==> Ready() && !Tally().Validated()
      ensures e.None? ==> Tally().commands + [Validate] == old(Tally().commands) + Script(header, image)
      ensures Attended(old(Tally().care), Tally().care, 51)
    {
      ghost var log := Tally().commands;
      e := Perform(Erase);
      if e.None? {
        CommandAdded(old(Tally()), Tally(), Erase);
        e := WriteBoth(header, image);
        ScriptJoins(log, header, image);
      }
    }

    method Transfer(header: Bytes, image: Bytes) returns (r: Result<nat, Error>)
      requires Ready() && !Tally().Validated()
      modifies this
      ensures Inv() && old(history) <= history
      ensures if r.Ok? then Answered(Tally()) else Explained(Tally(), r.error)
      ensures Attended(old(Tally().care), Tally().care, 52)
      ensures Vouched(r) ==> Ready() && Settled(net.requests)
      ensures Vouched(r) ==> Tally().commands == old(Tally().commands) + Script(header, image)
      ensures Vouched(r) ==> (r.Ok? <==> crc32(Stored(net.mem)) == crc32(image)) && (r.Ok? ==> r.value == crc32(image))
    {
      var e := Lay(header, image);
      if e.Some? {
        r := Err(e.value);
      } else {
        ghost var care := Tally().care;
        r := Check(image);
        AttendedJoin(old(Tally().care), care, Tally().care, 51, 1);
      }
    }

    method Check(image: Bytes) returns (r: Result<nat, Error>)
      requires Ready() && !Tally().Validated()
      modifies this
      ensures Inv() && old(history) <= history
      ensures if r.Ok? then Answered(Tally()) else Explained(Tally(), r.error)
      ensures Attended(old(Tally().care), Tally().care, 1)
      ensures Tally().commands == old(Tally().commands) + [Validate]
      ensures Vouched(r) ==> Ready() && Settled(net.requests)
      ensures Vouched(r) ==> (r.Ok? <==> crc32(Stored(net.mem)) == crc32(image)) && (r.Ok? ==> r.value == crc32(image))
    {
      var ack := Command(Validate);
      if ack.None? || ack.value.status != 0 {
        return Err(if ack.None? then NoReply else Refused(ack.value.status));
      }
      r := if ack.value.crc != crc32(image) then Err(CrcMismatch) else Ok(ack.value.crc);
    }
  }

  /** The device answered the validation with status zero. */
  predicate Vouched(r: Result<nat, Error>) { r.Ok? || r == Err(CrcMismatch) }

  /** The last answer taken is that of a validation that succeeded. */
  predicate Answered(a: Account) { a.answer.Some? && Vouches(a.answer.value) }

  /** What the host did and was answered when it gives up: four tries of a command or six of a session without an
      answer; a refusal; a CRC that is not the image's. */
  predicate Explained(a: Account, e: Error)
  {
    match e
    case NoReply => a.answer.None? && (a.tries == 4 || a.hellos >= 6)
    case Refused(status) =>
      && a.answer.Some? && a.answer.value.status == status != 0
      && a.awaited.Some? && Work(a.awaited.value)
    case CrcMismatch => Answered(a)
    case ImageTooLong => false
  }

  lemma OneMoreCommand(a: Account, c: Command, mem: Bytes)
    requires !a.Validated()
    ensures a.(commands := a.commands + [c]).Validated() == c.Validate?
    ensures Carried(mem, a.commands + [c]) == Effect(Carried(mem, a.commands), c)
  {
    CarriedMore(mem, a.commands, c);
    var cs := a.commands + [c];
    if c.Validate? {
      assert cs[|cs| - 1].Validate?;
    }
    forall i | 0 <= i < |cs| && !c.Validate?
      ensures !cs[i].Validate?
    {
      assert i < |a.commands| ==> cs[i] == a.commands[i];
    }
  }

  /** c is the last command sent, and the first validation if it is one. */
  predicate Current(a: Account, c: Command)
  {
    a.commands != [] && a.Latest() == c && a.Validated() == c.Validate?
  }

  lemma CommandAdded(a: Account, b: Account, c: Command)
    requires !a.Validated() && b.commands == a.commands + [c]
    ensures Current(b, c)
  {
    OneMoreCommand(a, c, []);
  }

  lemma NoValidation(xs: seq<Command>, ys: seq<Command>)
    ensures Unvalidating(xs) && Unvalidating(ys) ==> Unvalidating(xs + ys)
  {
  }

  lemma ChunksWrite(offset: nat, blob: Bytes)
    ensures Unvalidating(Chunks(offset, blob))
  {
    ChunksTile(offset, blob);
  }

  lemma SentUnvalidated(log: seq<Command>, offset: nat, blob: Bytes, start: nat, sent: seq<Command>)
    requires start <= |blob| && Unvalidating(log) && Written(log, offset, blob, start, sent)
    ensures Unvalidating(sent)
  {
    ChunksWrite(offset, blob);
    NoValidation(log, Chunks(offset, blob));
    FrontUnvalidating(sent, Chunks(offset + start, blob[start..]));
  }

  lemma FrontUnvalidating(xs: seq<Command>, ys: seq<Command>)
    requires Unvalidating(xs + ys)
    ensures Unvalidating(xs)
  {
    forall i | 0 <= i < |xs|
      ensures !xs[i].Validate?
    {
      assert (xs + ys)[i] == xs[i];
    }
  }

  lemma BlobUnvalidating(log: seq<Command>, offset: nat, blob: Bytes)
    requires Unvalidating(log)
    ensures Unvalidating(log + Chunks(offset, blob))
  {
    ChunksWrite(offset, blob);
    NoValidation(log, Chunks(offset, blob));
  }

  // ------------------------------------------------ a late acknowledgement

  /** n handshakes behind a request that the device has not got to, each of them lost. */
  function NoSession(n: nat): seq<Act>
  {
    if n == 0 then [] else NoSession(n - 1) + [Hello, Happen(LoseRequest(1))]
  }

  /** No answer comes to the first piece, nor to the six handshakes after it, so it is sent again. Then both
      requests are answered; one answer is taken; the request for the second piece is lost; and the other answer
      is taken. */
  function LateAck(a: Command, b: Command): seq<Act>
  {
    var serve := Happen(Serve(0, 0));
    [Act.Send(a)] + NoSession(HANDSHAKES) + [Again, serve] + [serve, Act.Take(1)]
    + [Act.Send(b), Happen(LoseRequest(0))] + [Act.Take(1)]
  }

  lemma TwoMoreActs(crc32: Slots.Crc32, mem: Bytes, acts: seq<Act>, x: Act, y: Act)
    ensures Run(crc32, mem, acts + [x, y]) == Enter(crc32, Enter(crc32, Run(crc32, mem, acts), x), y)
  {
    OneMoreAct(crc32, mem, acts, x);
    OneMoreAct(crc32, mem, acts + [x], y);
    PairAdded(acts, x, y);
  }

  lemma PairAdded(acts: seq<Act>, x: Act, y: Act)
    ensures acts + [x] + [y] == acts + [x, y]
  {
  }

  // The accounts on the way: after the lost handshakes, after the first answer, when one has been taken, and when the
  // second piece is lost.

  function Waiting(mem: Bytes, a: Command, q: Option<Request>, n: nat): Account
  {
    Account(Net([Request(a, 1)], [], mem), q, None, [a], 1, n, false, false, Care(false, if n == 0 then 1 else 0, 1))
  }

  function Served(mem: Bytes, a: Command): Account
  {
    Account(Net([Request(a, 1)], [Reply(WriteAck, 0, 0, 1)], Effect(mem, a)), Some(Request(a, 1)), None, [a],
            2, 0, true, false, Care(false, 0, 1))
  }

  function Acknowledged(mem: Bytes, a: Command): Account
  {
    Account(Net([], [Reply(WriteAck, 0, 0, 1)], Effect(mem, a)), Some(Request(a, 1)), Some(Reply(WriteAck, 0, 0, 1)),
            [a], 2, 0, true, false, Care(false, 0, 1))
  }

  function Lost(mem: Bytes, a: Command, b: Command): Account
  {
    Account(Net([], [Reply(WriteAck, 0, 0, 1)], Effect(mem, a)), Some(Request(b, 2)), None, [a, b],
            1, 0, true, false, Care(false, 1, 1))
  }

  lemma {:induction false} NoSessionLost(crc32: Slots.Crc32, mem: Bytes, a: Command, n: nat)
    returns (q: Option<Request>)
    requires a.Write?
    ensures Run(crc32, mem, [Act.Send(a)] + NoSession(n)) == Waiting(mem, a, q, n)
  {
    if n == 0 {
      assert [Act.Send(a)] + NoSession(0) == [] + [Act.Send(a)];
      OneMoreAct(crc32, mem, [], Act.Send(a));
      q := Some(Request(a, 1));
      assert [] + [a] == [a] && [] + [Request(a, 1)] == [Request(a, 1)];
    } else {
      var p := NoSessionLost(crc32, mem, a, n - 1);
      var x := [Act.Send(a)] + NoSession(n - 1);
      TwoMoreActs(crc32, mem, x, Hello, Happen(LoseRequest(1)));
      assert x + [Hello, Happen(LoseRequest(1))] == [Act.Send(a)] + NoSession(n);
      q := Some(Request(Session, 1));
      SessionLost(crc32, mem, a, p, n - 1);
    }
  }

  lemma SessionLost(crc32: Slots.Crc32, mem: Bytes, a: Command, q: Option<Request>, n: nat)
    ensures Enter(crc32, Enter(crc32, Waiting(mem, a, q, n), Hello), Happen(LoseRequest(1))) ==
            Waiting(mem, a, Some(Request(Session, 1)), n + 1)
  {
    assert ([Request(a, 1)] + [Request(Session, 1)])[..1] == [Request(a, 1)];
  }

  lemma ServedNext(crc32: Slots.Crc32, mem: Bytes, a: Command, q: Option<Request>, n: nat)
    requires a.Write? && n > 0
    ensures Enter(crc32, Enter(crc32, Waiting(mem, a, q, n), Again), Happen(Serve(0, 0))) == Served(mem, a)
  {
    assert ([Request(a, 1)] + [Request(a, 1)])[1..] == [Request(a, 1)];
  }

  lemma AcknowledgedNext(crc32: Slots.Crc32, mem: Bytes, a: Command)
    requires a.Write?
    ensures Enter(crc32, Enter(crc32, Served(mem, a), Happen(Serve(0, 0))), Act.Take(1)) == Acknowledged(mem, a)
  {
    var r := Reply(WriteAck, 0, 0, 1);
    Idempotent(mem, a);
    OnlyReply(r, WriteAck);
    assert ([r] + [r])[..1] == [r] && ([r] + [r])[1..] == [r];
  }

  lemma LostNext(crc32: Slots.Crc32, mem: Bytes, a: Command, b: Command)
    ensures Enter(crc32, Enter(crc32, Acknowledged(mem, a), Act.Send(b)), Happen(LoseRequest(0))) == Lost(mem, a, b)
  {
    assert [a] + [b] == [a, b] && ([] + [Request(b, 2)])[1..] == [];
  }

  /** Then the second piece counts as written, by an acknowledgement of the first with status zero, and the slot is
      without it. */
  lemma LateAckTaken(crc32: Slots.Crc32, mem: Bytes, a: Command, b: Command)
    requires a.Write? && b.Write?
    ensures Run(crc32, mem, LateAck(a, b)) ==
            Account(Net([], [], Effect(mem, a)), Some(Request(b, 2)), Some(Reply(WriteAck, 0, 0, 1)), [a, b],
                    1, 0, true, true, Care(false, 1, 1))
  {
    var serve := Happen(Serve(0, 0));
    var x := [Act.Send(a)] + NoSession(HANDSHAKES);
    var q := NoSessionLost(crc32, mem, a, HANDSHAKES);
    TwoMoreActs(crc32, mem, x, Again, serve);
    ServedNext(crc32, mem, a, q, HANDSHAKES);
    var y := x + [Again, serve];
    TwoMoreActs(crc32, mem, y, serve, Act.Take(1));
    AcknowledgedNext(crc32, mem, a);
    var z := y + [serve, Act.Take(1)];
    TwoMoreActs(crc32, mem, z, Act.Send(b), Happen(LoseRequest(0)));
    LostNext(crc32, mem, a, b);
    OneMoreAct(crc32, mem, z + [Act.Send(b), Happen(LoseRequest(0))], Act.Take(1));
    LastTaken(crc32, mem, a, b);
  }

  lemma LastTaken(crc32: Slots.Crc32, mem: Bytes, a: Command, b: Command)
    requires b.Write?
    ensures Enter(crc32, Lost(mem, a, b), Act.Take(1)) ==
            Account(Net([], [], Effect(mem, a)), Some(Request(b, 2)), Some(Reply(WriteAck, 0, 0, 1)), [a, b],
                    1, 0, true, true, Care(false, 1, 1))
  {
    var r := Reply(WriteAck, 0, 0, 1);
    OnlyReply(r, WriteAck);
    assert [r][..1] == [r] && [r][1..] == [];
  }

  lemma OnlyReply(r: Reply, want: Kind)
    requires r.kind == want
    ensures LastOf([r], want) == Some(r)
  {
    assert [r][|[r]| - 1] == r;
  }

  /** The commands of one install. */
  function Script(header: Bytes, image: Bytes): seq<Command>
  {
    [Erase] + Chunks(0, header) + Chunks(Slots.IMAGE_OFFSET, image) + [Validate]
  }

  lemma ScriptJoins(log: seq<Command>, header: Bytes, image: Bytes)
    ensures log + [Erase] + Chunks(0, header) + Chunks(Slots.IMAGE_OFFSET, image) + [Validate] ==
            log + Script(header, image)
  {
  }

  /** On an erased slot the commands of an install leave what write_slot lays into a flash image. */
  lemma PlacedByCommands(header: Bytes, image: Bytes)
    requires |header| == Slots.HEADER_SIZE && |image| <= Slots.ROOM
    ensures Program(Program(Slots.Erased(STRIDE), 0, header), Slots.IMAGE_OFFSET, image) ==
            Slots.Place(Slots.Erased(STRIDE), 0, header, image)
  {
    var blank := Slots.Erased(STRIDE);
    ProgramErased(STRIDE, 0, header);
    var mid := Overwrite(blank, 0, header);
    ProgramBlankPart(mid, Slots.IMAGE_OFFSET, image);
    SpliceFits(blank, 0, header);
    SpliceFits(mid, Slots.IMAGE_OFFSET, image);
  }

  /** Whatever the slot held, the commands of an install leave what write_slot lays into an erased one. */
  lemma ScriptCarried(mem: Bytes, header: Bytes, image: Bytes)
    requires |mem| == STRIDE && |header| == Slots.HEADER_SIZE && |image| <= Slots.ROOM
    ensures Carried(mem, Script(header, image)) == Slots.Place(Slots.Erased(STRIDE), 0, header, image)
  {
    var x, y := Chunks(0, header), Chunks(Slots.IMAGE_OFFSET, image);
    CarriedOne(mem, Erase);
    CarriedBoth(mem, [Erase], x);
    CarriedChunks(Slots.Erased(STRIDE), 0, header);
    CarriedBoth(mem, [Erase] + x, y);
    CarriedChunks(Program(Slots.Erased(STRIDE), 0, header), Slots.IMAGE_OFFSET, image);
    CarriedMore(mem, [Erase] + x + y, Validate);
    PlacedByCommands(header, image);
  }

  lemma ProgramBlankPart(mem: Bytes, offset: nat, data: Bytes)
    requires offset + |data| <= |mem| && forall i :: offset <= i < offset + |data| ==> mem[i] == 0xff
    ensures Program(mem, offset, data) == Overwrite(mem, offset, data)
  {
    forall i | 0 <= i < |mem|
      ensures Program(mem, offset, data)[i] == Overwrite(mem, offset, data)[i]
    {
      ProgramBeside(mem, offset, data, i);
    }
  }

  /** What an install leaves is a committed slot that holds exactly the image. */
  lemma InstalledIsStored(crc32: Slots.Crc32, image: Bytes, name: string, version: string, header: Bytes, mem: Bytes)
    requires Slots.BuildHeader(crc32, image, name, version) == Ok(header) && |image| <= Slots.ROOM
    requires mem == Slots.Place(Slots.Erased(STRIDE), 0, header, image)
    ensures Stored(mem) == image
  {
    Slots.PlaceHolds(Slots.Erased(STRIDE), 0, header, image, mem, 8, 12);
    Slots.HeaderParts(header, Slots.HeaderHead(), Slots.HeaderSizes(|image|, crc32(image)),
                      Slots.HeaderText(name, version));
    Slots.HeaderNumbers(Slots.HeaderHead(), Slots.HeaderSizes(|image|, crc32(image)), |image|, crc32(image));
  }

  /** The pieces up to start have been sent, and those from start on remain. */
  predicate Written(log: seq<Command>, offset: nat, blob: Bytes, start: nat, sent: seq<Command>)
    requires start <= |blob|
  {
    sent + Chunks(offset + start, blob[start..]) == log + Chunks(offset, blob)
  }

  lemma NothingWritten(log: seq<Command>, offset: nat, blob: Bytes)
    ensures Written(log, offset, blob, 0, log)
  {
    assert blob[0..] == blob;
  }

  lemma AllWritten(log: seq<Command>, offset: nat, blob: Bytes, sent: seq<Command>)
    requires Written(log, offset, blob, |blob|, sent)
    ensures sent == log + Chunks(offset, blob)
  {
  }

  lemma WrittenOut(mem: Bytes, log: seq<Command>, offset: nat, blob: Bytes, sent: seq<Command>)
    requires Written(log, offset, blob, |blob|, sent)
    ensures sent == log + Chunks(offset, blob) && Carried(mem, sent) == Program(Carried(mem, log), offset, blob)
  {
    AllWritten(log, offset, blob, sent);
    CarriedBoth(mem, log, Chunks(offset, blob));
    CarriedChunks(Carried(mem, log), offset, blob);
  }

  lemma OneMorePiece(log: seq<Command>, offset: nat, blob: Bytes, start: nat, end: nat, sent: seq<Command>,
                     now: seq<Command>)
    requires start < |blob| && end == if start + CHUNK < |blob| then start + CHUNK else |blob|
    requires Written(log, offset, blob, start, sent)
    requires now == sent + [SlotDevice.Write(offset + start, blob[start..end])]
    ensures Written(log, offset, blob, end, now)
  {
    NextChunk(offset, blob, start, end);
    var c, rest := [SlotDevice.Write(offset + start, blob[start..end])], Chunks(offset + end, blob[end..]);
    assert (sent + c) + rest == sent + (c + rest);
  }

  lemma NextChunk(offset: nat, blob: Bytes, start: nat, end: nat)
    requires start < |blob| && end == if start + CHUNK < |blob| then start + CHUNK else |blob|
    ensures Chunks(offset + start, blob[start..]) ==
            [SlotDevice.Write(offset + start, blob[start..end])] + Chunks(offset + end, blob[end..])
  {
    var rest := blob[start..];
    var n := end - start;
    assert n == if |rest| < CHUNK then |rest| else CHUNK;
    assert rest[..n] == blob[start..end] && rest[n..] == blob[end..];
  }

  function Data(cs: seq<Command>): Bytes
  {
    if cs == [] then [] else (if cs[0].Write? then cs[0].data else []) + Data(cs[1..])
  }

  /** Command i of the script starts where the commands before it ended. */
  predicate Adjoin(offset: nat, cs: seq<Command>)
    decreases |cs|
  {
    cs == [] || (cs[0].Write? && cs[0].offset == offset && Adjoin(offset + |cs[0].data|, cs[1..]))
  }

  /** The pieces tile the blob: they adjoin from its offset on, none is empty or longer than 200 bytes, only
      the last may be shorter, and together they are the blob. */
  lemma {:induction false} ChunksTile(offset: nat, blob: Bytes)
    ensures var cs := Chunks(offset, blob);
            && Adjoin(offset, cs) && Data(cs) == blob && |cs| == (|blob| + 199) / 200
    ensures var cs := Chunks(offset, blob);
            forall i :: 0 <= i < |cs| ==>
              cs[i].Write? && 0 < |cs[i].data| <= 200 && (i < |cs| - 1 ==> |cs[i].data| == 200)
    decreases |blob|
  {
    if blob != [] {
      var n := if |blob| < CHUNK then |blob| else CHUNK;
      ChunksTile(offset + n, blob[n..]);
      assert blob[..n] + blob[n..] == blob;
      var rest := Chunks(offset + n, blob[n..]);
      assert Chunks(offset, blob)[1..] == rest;
    }
  }
}
