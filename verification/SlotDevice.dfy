/** A firmware slot behind a FIFO link that may lose messages. */
module SlotDevice {
  import opened Bits
  import opened Bytearray
  import Slots

  const STRIDE: nat := Slots.STRIDE

  datatype Command = Session | Erase | Write(offset: nat, data: Bytes) | Validate

  datatype Kind = SessionAck | EraseAck | WriteAck | ValidateAck

  /** The tag numbers the command a message belongs to. It is not on the wire: it only lets a statement say
      which request an acknowledgement answers. */
  datatype Request = Request(command: Command, tag: int)
  datatype Reply = Reply(kind: Kind, status: nat, crc: nat, tag: int)

  /** Requests and replies under way, oldest first, and the bytes of the slot. */
  datatype Net = Net(requests: seq<Request>, replies: seq<Reply>, mem: Bytes)

  function AckOf(c: Command): Kind
  {
    match c
    case Session => SessionAck
    case Erase => EraseAck
    case Write(_, _) => WriteAck
    case Validate => ValidateAck
  }

  /** Programming NOR only clears bits. */
  function Program(mem: Bytes, offset: nat, data: Bytes): (r: Bytes)
    ensures |r| == |mem|
  {
    seq(|mem|, i requires 0 <= i < |mem| =>
      if offset <= i < offset + |data| then And(mem[i], data[i - offset]) else mem[i])
  }

  /** What a command does to the slot when the device accepts it. */
  function Effect(mem: Bytes, c: Command): (r: Bytes)
    ensures |r| == |mem|
  {
    match c
    case Erase => Slots.Erased(|mem|)
    case Write(offset, data) => Program(mem, offset, data)
    case _ => mem
  }

  /** The image the slot's own header describes. */
  function Stored(mem: Bytes): Bytes
  {
    if |mem| < 12 then [] else Slots.Slice(mem, Slots.IMAGE_OFFSET, UnLe(mem[8..12]))
  }

  /** Everything that can happen to the link and the device without the host: a message is lost, or the
      device serves the oldest request with a status, and for a validation that succeeds with the CRC of the
      bytes it has stored. */
  datatype Event = LoseRequest(index: nat) | LoseReply(index: nat) | Serve(status: nat, crc: nat)

  function Without<T>(s: seq<T>, i: nat): seq<T>
  {
    if i < |s| then s[..i] + s[i + 1..] else s
  }

  function Answer(crc32: Slots.Crc32, mem: Bytes, q: Request, status: nat, crc: nat): Reply
  {
    Reply(AckOf(q.command), status, if q.command.Validate? && status == 0 then crc32(Stored(mem)) else crc, q.tag)
  }

  function Step(crc32: Slots.Crc32, net: Net, e: Event): Net
  {
    match e
    case LoseRequest(i) => net.(requests := Without(net.requests, i))
    case LoseReply(i) => net.(replies := Without(net.replies, i))
    case Serve(status, crc) =>
      if net.requests == [] then net
      else
        var q := net.requests[0];
        Net(net.requests[1..], net.replies + [Answer(crc32, net.mem, q, status, crc)],
            if status == 0 then Effect(net.mem, q.command) else net.mem)
  }

  // ------------------------------------------------ idempotence

  lemma ProgramTwice(mem: Bytes, offset: nat, data: Bytes)
    ensures Program(Program(mem, offset, data), offset, data) == Program(mem, offset, data)
  {
    var r := Program(mem, offset, data);
    forall i | 0 <= i < |mem|
      ensures Program(r, offset, data)[i] == r[i]
    {
      if offset <= i < offset + |data| {
        AndAssociates(mem[i], data[i - offset], data[i - offset]);
        AndSelf(data[i - offset]);
      }
    }
  }

  /** Serving a command again changes nothing more. */
  lemma Idempotent(mem: Bytes, c: Command)
    ensures Effect(Effect(mem, c), c) == Effect(mem, c)
  {
    if c.Write? {
      ProgramTwice(mem, c.offset, c.data);
    }
  }

  /** Two adjoining chunks program what their concatenation does. */
  lemma ProgramJoins(mem: Bytes, offset: nat, a: Bytes, b: Bytes)
    ensures Program(Program(mem, offset, a), offset + |a|, b) == Program(mem, offset, a + b)
  {
  }

  lemma ProgramNothing(mem: Bytes, offset: nat)
    ensures Program(mem, offset, []) == mem
  {
  }

  /** On an erased slot, programming a header and an image stores exactly them. */
  lemma ProgramErased(n: nat, offset: nat, data: Bytes)
    requires offset + |data| <= n
    ensures Program(Slots.Erased(n), offset, data) == Overwrite(Slots.Erased(n), offset, data)
  {
    forall i | 0 <= i < |data|
      ensures And(0xff, data[i]) == data[i]
    {
      AndErased(data[i]);
    }
  }

  lemma ProgramBeside(mem: Bytes, offset: nat, data: Bytes, i: nat)
    requires i < |mem|
    ensures !(offset <= i < offset + |data|) ==> Program(mem, offset, data)[i] == mem[i]
    ensures offset <= i < offset + |data| && mem[i] == 0xff ==> Program(mem, offset, data)[i] == data[i - offset]
  {
    if offset <= i < offset + |data| {
      AndErased(data[i - offset]);
    }
  }

  // ------------------------------------------------ what a validation's answer means

  predicate Changes(c: Command) { c.Erase? || c.Write? }

  /** No request that could still change the slot is under way. */
  predicate Settled(requests: seq<Request>)
  {
    forall i :: 0 <= i < |requests| ==> !Changes(requests[i].command)
  }

  /** Nothing that changes the slot travels behind a validation. */
  predicate ValidatesLast(requests: seq<Request>)
  {
    forall i, j :: 0 <= i < j < |requests| && requests[i].command.Validate? ==> !Changes(requests[j].command)
  }

  predicate Vouches(r: Reply) { r.kind == ValidateAck && r.status == 0 }

  /** Every successful validation under way tells the CRC of what is stored now, and will stay stored. */
  predicate Truthful(crc32: Slots.Crc32, net: Net)
  {
    && ValidatesLast(net.requests)
    && forall i :: 0 <= i < |net.replies| && Vouches(net.replies[i]) ==>
                     Settled(net.requests) && net.replies[i].crc == crc32(Stored(net.mem))
  }

  lemma LossKeepsTruth(crc32: Slots.Crc32, net: Net, e: Event)
    requires Truthful(crc32, net) && !e.Serve?
    ensures Truthful(crc32, Step(crc32, net, e))
    ensures Settled(net.requests) ==> Settled(Step(crc32, net, e).requests) && Step(crc32, net, e).mem == net.mem
  {
  }

  lemma ServiceKeepsTruth(crc32: Slots.Crc32, net: Net, e: Event, q: Request, a: Reply, mem: Bytes)
    requires Truthful(crc32, net) && e.Serve? && net.requests != [] && q == net.requests[0]
    requires a == Answer(crc32, net.mem, q, e.status, e.crc)
    requires mem == if e.status == 0 then Effect(net.mem, q.command) else net.mem
    ensures Truthful(crc32, Net(net.requests[1..], net.replies + [a], mem))
    ensures Settled(net.requests) ==> Settled(net.requests[1..]) && mem == net.mem
  {
    if Vouches(a) {
      assert q.command.Validate?;
    }
  }

  /** Whatever the link and the device do, successful validations stay truthful, and a settled slot stays
      as it is. */
  lemma StepKeepsTruth(crc32: Slots.Crc32, net: Net, e: Event)
    requires Truthful(crc32, net)
    ensures Truthful(crc32, Step(crc32, net, e))
    ensures Settled(net.requests) ==> Settled(Step(crc32, net, e).requests) && Step(crc32, net, e).mem == net.mem
  {
    if e.Serve? && net.requests != [] {
      var q := net.requests[0];
      ServiceKeepsTruth(crc32, net, e, q, Answer(crc32, net.mem, q, e.status, e.crc),
                        if e.status == 0 then Effect(net.mem, q.command) else net.mem);
    } else if !e.Serve? {
      LossKeepsTruth(crc32, net, e);
    }
  }

  // ------------------------------------------------ how far the slot has come

  predicate Of(q: Request, tag: int, c: Command) { q.tag == tag && q.command == c }

  /** The requests under way are sessions, repeats of the previous command and, behind them, of the current one. */
  predicate InOrder(requests: seq<Request>, tag: int, prev: Command, cur: Command)
  {
    && (forall i :: 0 <= i < |requests| ==>
          requests[i].command.Session? || Of(requests[i], tag - 1, prev) || Of(requests[i], tag, cur))
    && (forall i, j :: 0 <= i < j < |requests| && requests[i].tag == tag && !requests[i].command.Session? ==>
                         requests[j].command.Session? || requests[j].tag == tag)
  }

  /** No repeat of an earlier command than the current one is under way. */
  predicate Caught(requests: seq<Request>, tag: int)
  {
    forall i :: 0 <= i < |requests| && !requests[i].command.Session? ==> requests[i].tag == tag
  }

  predicate Confirms(r: Reply, tag: int) { r.kind != SessionAck && r.tag == tag && r.status == 0 }

  /** The command being carried out, the one before it, and what the slot holds before and after it. */
  datatype Plan = Plan(tag: int, prev: Command, cur: Command, before: Bytes, after: Bytes)
  {
    /** The previous command, repeated, changes nothing, and the current one leads from before to after. */
    predicate Valid()
    {
      Effect(before, prev) == before && after == Effect(before, cur)
    }

    function Next(c: Command): Plan
    {
      Plan(tag + 1, cur, c, after, Effect(after, c))
    }
  }

  /** The current command has been carried out, and no earlier one is still under way. */
  predicate Reached(requests: seq<Request>, mem: Bytes, p: Plan)
  {
    mem == p.after && Caught(requests, p.tag)
  }

  /** Every reply that confirms the current command means that it has been carried out. */
  predicate Confirmed(net: Net, p: Plan)
  {
    && (forall i :: 0 <= i < |net.replies| && Confirms(net.replies[i], p.tag) ==> Reached(net.requests, net.mem, p))
    && (forall i :: 0 <= i < |net.replies| ==> net.replies[i].kind == SessionAck || net.replies[i].tag <= p.tag)
  }

  /** The slot holds what it did before the current command, or what it does after it; once a reply confirms
      the current command the slot holds the latter, for as long as that command is the current one. */
  predicate OnTrack(net: Net, p: Plan)
  {
    && InOrder(net.requests, p.tag, p.prev, p.cur)
    && (net.mem == p.before || Reached(net.requests, net.mem, p))
    && Confirmed(net, p)
  }

  lemma LossKeepsOrder(requests: seq<Request>, i: nat, p: Plan)
    requires InOrder(requests, p.tag, p.prev, p.cur)
    ensures InOrder(Without(requests, i), p.tag, p.prev, p.cur)
    ensures Caught(requests, p.tag) ==> Caught(Without(requests, i), p.tag)
  {
  }

  lemma LossKeepsTrack(crc32: Slots.Crc32, net: Net, e: Event, p: Plan)
    requires OnTrack(net, p) && !e.Serve?
    ensures OnTrack(Step(crc32, net, e), p)
    ensures Reached(net.requests, net.mem, p) ==> Reached(Step(crc32, net, e).requests, Step(crc32, net, e).mem, p)
  {
    if e.LoseRequest? {
      LossKeepsOrder(net.requests, e.index, p);
    }
  }

  lemma ServiceKeepsOrder(requests: seq<Request>, p: Plan)
    requires InOrder(requests, p.tag, p.prev, p.cur) && requests != []
    ensures InOrder(requests[1..], p.tag, p.prev, p.cur)
    ensures Caught(requests, p.tag) ==> Caught(requests[1..], p.tag)
    ensures requests[0].tag == p.tag && !requests[0].command.Session? ==> Caught(requests[1..], p.tag)
  {
  }

  /** One request served keeps the slot at its old or its new contents. */
  lemma ServiceReaches(net: Net, q: Request, status: nat, mem: Bytes, p: Plan)
    requires OnTrack(net, p) && p.Valid() && net.requests != [] && q == net.requests[0]
    requires mem == if status == 0 then Effect(net.mem, q.command) else net.mem
    ensures mem == p.before || Reached(net.requests[1..], mem, p)
    ensures Reached(net.requests, net.mem, p) ==> Reached(net.requests[1..], mem, p)
    ensures !q.command.Session? && q.tag == p.tag && status == 0 ==> Reached(net.requests[1..], mem, p)
  {
    ServiceKeepsOrder(net.requests, p);
    Idempotent(p.before, p.cur);
    if q.command.Session? {
      assert mem == net.mem;
    } else if q.tag == p.tag {
      assert q.command == p.cur;
    } else {
      assert q.command == p.prev && !Caught(net.requests, p.tag);
    }
  }

  lemma ServiceKeepsTrack(crc32: Slots.Crc32, net: Net, e: Event, q: Request, a: Reply, mem: Bytes, p: Plan)
    requires OnTrack(net, p) && p.Valid()
    requires e.Serve? && net.requests != [] && q == net.requests[0] && a == Answer(crc32, net.mem, q, e.status, e.crc)
    requires mem == if e.status == 0 then Effect(net.mem, q.command) else net.mem
    ensures OnTrack(Net(net.requests[1..], net.replies + [a], mem), p)
    ensures Reached(net.requests, net.mem, p) ==> Reached(net.requests[1..], mem, p)
  {
    ServiceKeepsOrder(net.requests, p);
    ServiceReaches(net, q, e.status, mem, p);
  }

  /** Whatever the link and the device do, the slot stays on track. */
  lemma StepKeepsTrack(crc32: Slots.Crc32, net: Net, e: Event, p: Plan)
    requires OnTrack(net, p) && p.Valid()
    ensures OnTrack(Step(crc32, net, e), p)
    ensures Reached(net.requests, net.mem, p) ==> Reached(Step(crc32, net, e).requests, Step(crc32, net, e).mem, p)
  {
    if e.Serve? && net.requests != [] {
      var q := net.requests[0];
      ServiceKeepsTrack(crc32, net, e, q, Answer(crc32, net.mem, q, e.status, e.crc),
                        if e.status == 0 then Effect(net.mem, q.command) else net.mem, p);
    } else if !e.Serve? {
      LossKeepsTrack(crc32, net, e, p);
    }
  }

  /** Once the current command has been carried out the next one can be sent. */
  lemma NextCommand(net: Net, p: Plan, c: Command)
    requires OnTrack(net, p) && Reached(net.requests, net.mem, p)
    ensures OnTrack(net, p.Next(c))
  {
  }

  lemma NextValid(p: Plan, c: Command)
    requires p.Valid()
    ensures p.Next(c).Valid()
  {
    Idempotent(p.before, p.cur);
  }

  lemma SendKeepsTrack(net: Net, q: Request, p: Plan)
    requires OnTrack(net, p)
    requires q.command.Session? || Of(q, p.tag, p.cur)
    ensures OnTrack(net.(requests := net.requests + [q]), p)
    ensures Reached(net.requests, net.mem, p) ==> Reached(net.requests + [q], net.mem, p)
  {
    var requests := net.requests + [q];
    assert InOrder(requests, p.tag, p.prev, p.cur);
    assert Caught(net.requests, p.tag) ==> Caught(requests, p.tag);
  }

  // ------------------------------------------------ one request, one acknowledgement

  predicate Work(q: Request) { !q.command.Session? }

  predicate Ack(r: Reply) { r.kind != SessionAck }

  predicate Idle(net: Net)
  {
    && (forall i :: 0 <= i < |net.requests| ==> !Work(net.requests[i]))
    && (forall i :: 0 <= i < |net.replies| ==> !Ack(net.replies[i]))
  }

  /** At most one message that is not about the session is under way, and it belongs to the current command. */
  predicate Lone(net: Net, tag: int)
  {
    && (forall i :: 0 <= i < |net.requests| && Work(net.requests[i]) ==> net.requests[i].tag == tag)
    && (forall i :: 0 <= i < |net.replies| && Ack(net.replies[i]) ==> net.replies[i].tag == tag)
    && (forall i, j :: 0 <= i < j < |net.requests| ==> !Work(net.requests[i]) || !Work(net.requests[j]))
    && (forall i, j :: 0 <= i < j < |net.replies| ==> !Ack(net.replies[i]) || !Ack(net.replies[j]))
    && (forall i, j :: 0 <= i < |net.requests| && 0 <= j < |net.replies| ==>
          !Work(net.requests[i]) || !Ack(net.replies[j]))
  }

  lemma LossKeepsLone(crc32: Slots.Crc32, net: Net, e: Event, tag: int)
    requires Lone(net, tag) && !e.Serve?
    ensures Lone(Step(crc32, net, e), tag)
  {
  }

  lemma ServiceKeepsLone(crc32: Slots.Crc32, net: Net, q: Request, a: Reply, tag: int, mem: Bytes)
    requires Lone(net, tag) && net.requests != [] && q == net.requests[0]
    requires a.tag == q.tag && a.kind == AckOf(q.command)
    ensures Lone(Net(net.requests[1..], net.replies + [a], mem), tag)
  {
    assert Ack(a) <==> Work(q);
  }

  lemma StepKeepsLone(crc32: Slots.Crc32, net: Net, e: Event, tag: int)
    requires Lone(net, tag)
    ensures Lone(Step(crc32, net, e), tag)
  {
    if e.Serve? && net.requests != [] {
      var q := net.requests[0];
      ServiceKeepsLone(crc32, net, q, Answer(crc32, net.mem, q, e.status, e.crc), tag,
                       if e.status == 0 then Effect(net.mem, q.command) else net.mem);
    } else if !e.Serve? {
      LossKeepsLone(crc32, net, e, tag);
    }
  }

  lemma StepKeepsIdle(crc32: Slots.Crc32, net: Net, e: Event)
    requires Idle(net)
    ensures Idle(Step(crc32, net, e))
  {
  }

  // ------------------------------------------------ before any validation is sent

  predicate Unvalidated(net: Net)
  {
    && (forall i :: 0 <= i < |net.requests| ==> !net.requests[i].command.Validate?)
    && (forall i :: 0 <= i < |net.replies| ==> net.replies[i].kind != ValidateAck)
  }

  lemma StepKeepsUnvalidated(crc32: Slots.Crc32, net: Net, e: Event)
    requires Unvalidated(net)
    ensures Unvalidated(Step(crc32, net, e))
  {
  }

  lemma UnvalidatedIsTruthful(crc32: Slots.Crc32, net: Net)
    requires Unvalidated(net)
    ensures Truthful(crc32, net)
  {
  }

  lemma SendKeepsTruth(crc32: Slots.Crc32, net: Net, q: Request)
    requires Truthful(crc32, net) && !Changes(q.command)
    ensures Truthful(crc32, net.(requests := net.requests + [q]))
    ensures Settled(net.requests) ==> Settled(net.requests + [q])
  {
  }
}
