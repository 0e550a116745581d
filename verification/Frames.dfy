/** The serial framing: AB CD, length, obfuscated payload and CRC, DC BA. */
module Frames {
  import opened Bits
  import opened Wrappers
  import Crc

  type Bytes = seq<Byte>

  const MAGIC: Bytes := [0xab, 0xcd]
  const END: Bytes := [0xdc, 0xba]
  const OBFUS: Bytes := [0x16, 0x6c, 0x14, 0xe6, 0x2e, 0x91, 0x0d, 0x40,
                         0x21, 0x35, 0xd5, 0x40, 0x13, 0x03, 0xe9, 0x80]

  datatype Message = Message(kind: nat, data: Bytes)

  // ------------------------------------------------ bytes

  function XorByte(a: Byte, b: Byte): Byte
  {
    Pow2Byte();
    XorBound(a, b, 8);
    Xor(a, b)
  }

  function Obfuscate(data: Bytes): (r: Bytes)
    ensures |r| == |data|
  {
    seq(|data|, i requires 0 <= i < |data| => XorByte(data[i], OBFUS[i % 16]))
  }

  /** Obfuscation undoes itself. */
  lemma ObfuscateTwice(data: Bytes)
    ensures Obfuscate(Obfuscate(data)) == data
  {
    forall i | 0 <= i < |data|
      ensures Obfuscate(Obfuscate(data))[i] == data[i]
    {
      XorTwice(data[i], OBFUS[i % 16]);
    }
  }

  /** Bit by bit: the data, flipped where the table's byte for that place, of sixteen in turn, has a one. */
  lemma ObfuscatedBits(data: Bytes, i: nat, k: nat)
    requires i < |data|
    ensures Bit(Obfuscate(data)[i], k) == (Bit(data[i], k) != Bit(OBFUS[i % 16], k))
  {
    XorBits(data[i], OBFUS[i % 16], k);
  }

  /** A 16-bit field, low byte first. */
  function Le16(n: nat): (r: Bytes)
    requires n < 0x1_0000
    ensures |r| == 2 && UnLe16(r) == n
  {
    [n % 256, n / 256]
  }

  function UnLe16(bs: Bytes): (n: nat)
    requires |bs| == 2
    ensures n < 0x1_0000
  {
    bs[1] as nat * 256 + bs[0]
  }

  // ------------------------------------------------ building

  function Payload(m: Message): (r: Bytes)
    requires m.kind < 0x1_0000 && |m.data| < 0x1_0000
    ensures |r| == |m.data| + 4
  {
    Le16(m.kind) + Le16(|m.data|) + m.data
  }

  function CrcField(payload: Bytes): (r: Bytes)
    ensures |r| == 2
  {
    FromBitsBound(Crc.Crc16(payload));
    assert Pow2(4) == 16 && Pow2(8) == 256 && Pow2(12) == 4096 && Pow2(16) == 0x1_0000;
    Le16(FromBits(Crc.Crc16(payload)))
  }

  /** The fields that must fit in sixteen bits: packing fails otherwise. */
  predicate Fits(m: Message) { m.kind < 0x1_0000 && |m.data| + 4 < 0x1_0000 }

  function Frame(m: Message): (r: Bytes)
    requires Fits(m)
    ensures |r| == |m.data| + 12
  {
    var p := Payload(m);
    MAGIC + Le16(|p|) + Obfuscate(p + CrcField(p)) + END
  }

  function Build(m: Message): Option<Bytes>
  {
    if Fits(m) then Some(Frame(m)) else None
  }

  // ------------------------------------------------ taking

  predicate MagicAt(buf: Bytes, i: int)
  {
    0 <= i && i + 2 <= |buf| && buf[i..i + 2] == MAGIC
  }

  /** The first place at or after from where the magic starts, or -1. */
  function Find(buf: Bytes, from: nat): (i: int)
    ensures i == -1 || (from <= i && MagicAt(buf, i))
    ensures forall j :: from <= j && (i == -1 || j < i) ==> !MagicAt(buf, j)
    decreases |buf| - from
  {
    if from + 2 > |buf| then -1 else if MagicAt(buf, from) then from else Find(buf, from + 1)
  }

  /** What the bytes from a magic on amount to: an incomplete frame, something to drop, or a
      message; with the number of bytes used up. */
  datatype Outcome = Keep | Drop(used: nat) | Got(used: nat, message: Message)

  function Front(t: Bytes): (o: Outcome)
    ensures o.Drop? ==> 2 <= o.used <= |t|
    ensures o.Got? ==> 10 <= o.used <= |t|
  {
    if |t| < 8 then Keep
    else
      var end := 6 + UnLe16(t[2..4]);
      if |t| < end + 2 then Keep
      else if t[end..end + 2] != END then Drop(2)
      else
        var body := Obfuscate(t[4..end]);
        if |body| < 4 then Drop(end + 2)
        else
          var n := 4 + UnLe16(body[2..4]);
          Got(end + 2, Message(UnLe16(body[..2]), body[4..if n < |body| then n else |body|]))
  }

  /** The next message, or None if no frame is complete; and what is kept of the buffer. */
  function Take(buf: Bytes): (r: (Bytes, Option<Message>))
    ensures |r.0| <= |buf|
    decreases |buf|
  {
    var start := Find(buf, 0);
    if start < 0 then ([], None)
    else
      match Front(buf[start..])
      case Keep => (buf[start..], None)
      case Drop(n) => Take(buf[start..][n..])
      case Got(n, m) => (buf[start..][n..], Some(m))
  }

  class Frames {
    var buf: Bytes

    constructor ()
      ensures buf == []
    {
      buf := [];
    }

    method Feed(chunk: Bytes)
      modifies this
      ensures buf == old(buf) + chunk
    {
      buf := buf + chunk;
    }

    /** Ends on every buffer: each turn of the loop drops at least the two bytes of a magic. */
    method TakeNext() returns (m: Option<Message>)
      modifies this
      ensures (buf, m) == Take(old(buf))
    {
      while true
        invariant Take(buf) == Take(old(buf))
        decreases |buf|
      {
        var start := Find(buf, 0);
        if start < 0 {
          buf := [];
          return None;
        }
        var t := buf[start..];
        var o := ReadFront(t);
        match o
        case Keep =>
          buf := t;
          return None;
        case Drop(n) =>
          buf := t[n..];
        case Got(n, msg) =>
          buf := t[n..];
          return Some(msg);
      }
    }
  }

  /** The checks on the bytes from a magic on. */
  method ReadFront(t: Bytes) returns (o: Outcome)
    ensures o == Front(t)
  {
    if |t| < 8 {
      return Keep;
    }
    var end := 6 + UnLe16(t[2..4]);
    if |t| < end + 2 {
      return Keep;
    }
    if t[end..end + 2] != END {
      return Drop(2);
    }
    var body := Obfuscate(t[4..end]);
    if |body| < 4 {
      return Drop(end + 2);
    }
    var n := 4 + UnLe16(body[2..4]);
    o := Got(end + 2, Message(UnLe16(body[..2]), body[4..if n < |body| then n else |body|]));
  }

  // ------------------------------------------------ one frame

  lemma FrameParts(m: Message)
    requires Fits(m)
    ensures var f, p := Frame(m), Payload(m);
            && f[..2] == MAGIC && f[2..4] == Le16(|p|) && f[|f| - 2..] == END
            && f[4..|f| - 2] == Obfuscate(p + CrcField(p)) && MagicAt(f, 0)
  {
  }

  lemma BodyParts(m: Message)
    requires Fits(m)
    ensures var body := Payload(m) + CrcField(Payload(m));
            && body[..2] == Le16(m.kind) && body[2..4] == Le16(|m.data|) && body[4..4 + |m.data|] == m.data
  {
  }

  /** The obfuscated part in clear: the message's kind and size, its data, and the remainder of all that by the
      generator of the CRC, each number low byte first. */
  ghost predicate Carries(body: Bytes, m: Message)
  {
    var n := |m.data| + 4;
    && |body| == n + 2 && body[1] as nat * 256 + body[0] == m.kind
    && body[3] as nat * 256 + body[2] == |m.data| && body[4..n] == m.data
    && Crc.IsRemainder(Crc.MessageBits(body[..n]), ToBits(body[n + 1] as nat * 256 + body[n], 16))
  }

  /** A frame byte by byte: the magic, the message's length, the obfuscated message and its CRC, the footer. */
  lemma FrameLayout(m: Message)
    requires Fits(m)
    ensures var f := Frame(m);
            && f[0] == 0xab && f[1] == 0xcd && f[3] as nat * 256 + f[2] == |m.data| + 4
            && f[|f| - 2] == 0xdc && f[|f| - 1] == 0xba && Carries(Obfuscate(f[4..|f| - 2]), m)
  {
    var p := Payload(m);
    FrameParts(m);
    FrameEnds(Frame(m), |p|);
    ObfuscateTwice(p + CrcField(p));
    BodyCarries(m);
  }

  lemma FrameEnds(f: Bytes, n: nat)
    requires n < 0x1_0000 && |f| >= 6 && f[..2] == MAGIC && f[2..4] == Le16(n) && f[|f| - 2..] == END
    ensures f[0] == 0xab && f[1] == 0xcd && f[3] as nat * 256 + f[2] == n
    ensures f[|f| - 2] == 0xdc && f[|f| - 1] == 0xba
  {
    assert f[0] == f[..2][0] && f[1] == f[..2][1] && f[2] == f[2..4][0] && f[3] == f[2..4][1];
    assert f[|f| - 2] == f[|f| - 2..][0] && f[|f| - 1] == f[|f| - 2..][1];
  }

  lemma BodyCarries(m: Message)
    requires Fits(m)
    ensures Carries(Payload(m) + CrcField(Payload(m)), m)
  {
    var p := Payload(m);
    var body, n := p + CrcField(p), |p|;
    BodyParts(m);
    assert body[0] == body[..2][0] && body[1] == body[..2][1] && body[2] == body[2..4][0] && body[3] == body[2..4][1];
    assert body[..n] == p && body[n] == CrcField(p)[0] && body[n + 1] == CrcField(p)[1];
    FieldIsRemainder(p);
  }

  lemma FieldIsRemainder(p: Bytes)
    ensures Crc.IsRemainder(Crc.MessageBits(p), ToBits(CrcField(p)[1] as nat * 256 + CrcField(p)[0], 16))
  {
    ToFromBits(Crc.Crc16(p));
    Crc.Crc16IsRemainder(p, Crc.Crc16(p));
  }

  /** A whole frame at the front of the buffer yields its message and is removed. */
  lemma TakeWhole(m: Message, rest: Bytes)
    requires Fits(m)
    ensures Take(Frame(m) + rest) == (rest, Some(m))
  {
    var f, p := Frame(m), Payload(m);
    var buf := f + rest;
    FrameParts(m);
    assert buf[0..2] == f[..2];
    assert MagicAt(buf, 0);
    assert buf[0..] == buf;
    FrontWhole(m, rest);
    assert buf[|f|..] == rest;
  }

  lemma FrontWhole(m: Message, rest: Bytes)
    requires Fits(m)
    ensures Front(Frame(m) + rest) == Got(|Frame(m)|, m)
  {
    var f, p := Frame(m), Payload(m);
    var buf := f + rest;
    FrameParts(m);
    assert buf[2..4] == f[2..4];
    var end := 6 + |p|;
    assert buf[end..end + 2] == f[|f| - 2..];
    assert buf[4..end] == f[4..|f| - 2];
    ObfuscateTwice(p + CrcField(p));
    BodyParts(m);
  }

  /** The front of a frame stays in the buffer, unless it is the first byte alone. */
  lemma TakePart(m: Message, n: nat)
    requires Fits(m) && n < |Frame(m)| && n != 1
    ensures Take(Frame(m)[..n]) == (Frame(m)[..n], None)
  {
    FrameParts(m);
    var buf := Frame(m)[..n];
    assert buf[0..] == buf;
    if n >= 2 {
      assert buf[0..2] == Frame(m)[..2];
      assert MagicAt(buf, 0);
      if n >= 8 {
        assert buf[2..4] == Frame(m)[2..4];
      }
    }
  }

  /** Bytes before the first magic are skipped. */
  lemma TakeSkips(junk: Bytes, buf: Bytes)
    requires MagicAt(buf, 0) && forall i :: 0 <= i < |junk| ==> !MagicAt(junk + buf, i)
    ensures Take(junk + buf) == Take(buf)
  {
    var all := junk + buf;
    var n := |junk|;
    assert all[n..n + 2] == buf[0..2];
    assert MagicAt(all, n);
    assert Find(all, 0) == n && Find(buf, 0) == 0;
    assert all[n..] == buf == buf[0..];
  }

  /** With no magic at all the buffer is discarded, a lone first magic byte at its end included. */
  lemma TakeDiscards(buf: Bytes)
    requires forall i :: 0 <= i < |buf| ==> !MagicAt(buf, i)
    ensures Take(buf) == ([], None)
  {
  }

  // ------------------------------------------------ a stream of frames

  function Stream(ms: seq<Message>): Bytes
    requires forall m :: m in ms ==> Fits(m)
  {
    if ms == [] then [] else Frame(ms[0]) + Stream(ms[1..])
  }

  datatype Event = Fed(chunk: Bytes) | Taken

  function Delivered(o: Option<Message>): seq<Message>
  {
    if o.Some? then [o.value] else []
  }

  /** The buffer and the messages delivered after a run of feeds and takes. */
  function Run(buf: Bytes, es: seq<Event>): (r: (Bytes, seq<Message>))
  {
    if es == [] then (buf, [])
    else
      var (b, out) := Run(buf, es[..|es| - 1]);
      match es[|es| - 1]
      case Fed(chunk) => (b + chunk, out)
      case Taken => (Take(b).0, out + Delivered(Take(b).1))
  }

  function FedBytes(es: seq<Event>): Bytes
  {
    if es == [] then []
    else FedBytes(es[..|es| - 1]) + (if es[|es| - 1].Fed? then es[|es| - 1].chunk else [])
  }

  /** No take finds the first byte of a magic alone in the buffer. */
  ghost predicate NeverAlone(es: seq<Event>)
  {
    forall n :: 0 <= n < |es| && es[n] == Taken ==> Run([], es[..n]).0 != [MAGIC[0]]
  }

  /** The delivered messages are the first k, and the buffer with what is still to come is the rest. */
  ghost predicate InStep(ms: seq<Message>, k: nat, buf: Bytes, out: seq<Message>, toCome: Bytes)
  {
    && (forall m :: m in ms ==> Fits(m)) && k <= |ms| && out == ms[..k]
    && buf + toCome == Stream(ms[k..])
  }

  lemma WholeInBuffer(buf: Bytes, toCome: Bytes, f: Bytes, more: Bytes)
    requires buf + toCome == f + more && |buf| >= |f|
    ensures buf == f + buf[|f|..] && buf[|f|..] + toCome == more
  {
    assert (buf + toCome)[..|f|] == buf[..|f|] == (f + more)[..|f|] == f;
    assert (buf + toCome)[|f|..] == buf[|f|..] + toCome;
  }

  lemma PartInBuffer(buf: Bytes, toCome: Bytes, f: Bytes, more: Bytes)
    requires buf + toCome == f + more && |buf| < |f|
    ensures buf == f[..|buf|]
  {
    assert (buf + toCome)[..|buf|] == buf && (f + more)[..|buf|] == f[..|buf|];
  }

  lemma FirstByte(m: Message, buf: Bytes)
    requires Fits(m) && buf == Frame(m)[..1]
    ensures buf == [MAGIC[0]]
  {
    assert buf == [Frame(m)[0]];
  }

  lemma WholeInStep(ms: seq<Message>, k: nat, buf: Bytes, out: seq<Message>, toCome: Bytes, m: Message, f: Bytes)
    requires InStep(ms, k, buf, out, toCome) && k < |ms| && m == ms[k] && f == Frame(m) && |buf| >= |f|
    ensures Take(buf) == (buf[|f|..], Some(m)) && InStep(ms, k + 1, buf[|f|..], out + [m], toCome)
  {
    FirstFrame(ms, k);
    WholeInBuffer(buf, toCome, f, Stream(ms[k + 1..]));
    TakeWhole(m, buf[|f|..]);
    NextInStep(ms, k, buf[|f|..], out, toCome, m);
  }

  lemma NextInStep(ms: seq<Message>, k: nat, rest: Bytes, out: seq<Message>, toCome: Bytes, m: Message)
    requires (forall m :: m in ms ==> Fits(m)) && k < |ms| && m == ms[k] && out == ms[..k]
    requires rest + toCome == Stream(ms[k + 1..])
    ensures InStep(ms, k + 1, rest, out + [m], toCome)
  {
    assert ms[..k] + [m] == ms[..k + 1];
  }

  lemma PartInStep(ms: seq<Message>, k: nat, buf: Bytes, out: seq<Message>, toCome: Bytes, m: Message, f: Bytes)
    requires InStep(ms, k, buf, out, toCome) && k < |ms| && m == ms[k] && f == Frame(m) && |buf| < |f|
    requires buf != [MAGIC[0]]
    ensures Take(buf) == (buf, None) && toCome != []
  {
    FirstFrame(ms, k);
    PartInBuffer(buf, toCome, f, Stream(ms[k + 1..]));
    if |buf| == 1 {
      FirstByte(m, buf);
    }
    TakePart(m, |buf|);
  }

  lemma TakeInStep(ms: seq<Message>, k: nat, buf: Bytes, out: seq<Message>, toCome: Bytes)
    requires InStep(ms, k, buf, out, toCome) && buf != [MAGIC[0]]
    ensures match Take(buf).1
            case Some(m) => k < |ms| && InStep(ms, k + 1, Take(buf).0, out + [m], toCome)
            case None => InStep(ms, k, Take(buf).0, out, toCome)
    ensures toCome == [] && Take(buf).1.None? ==> k == |ms|
  {
    if k == |ms| {
      assert Take([]) == ([], None);
    } else if |buf| >= |Frame(ms[k])| {
      WholeInStep(ms, k, buf, out, toCome, ms[k], Frame(ms[k]));
    } else {
      PartInStep(ms, k, buf, out, toCome, ms[k], Frame(ms[k]));
    }
  }

  /** After the run, the delivered messages are the first k. */
  ghost predicate AfterRun(ms: seq<Message>, k: nat, es: seq<Event>, toCome: Bytes)
  {
    InStep(ms, k, Run([], es).0, Run([], es).1, toCome)
  }

  lemma FedInStep(ms: seq<Message>, k: nat, front: seq<Event>, chunk: Bytes, toCome: Bytes)
    requires AfterRun(ms, k, front, chunk + toCome)
    ensures AfterRun(ms, k, front + [Fed(chunk)], toCome)
  {
    assert (front + [Fed(chunk)])[..|front|] == front;
    var b := Run([], front).0;
    assert b + (chunk + toCome) == b + chunk + toCome;
  }

  lemma TakenInStep(ms: seq<Message>, k: nat, front: seq<Event>, toCome: Bytes) returns (k': nat)
    requires AfterRun(ms, k, front, toCome) && Run([], front).0 != [MAGIC[0]]
    ensures AfterRun(ms, k', front + [Taken], toCome)
  {
    assert (front + [Taken])[..|front|] == front;
    var (b, out) := Run([], front);
    TakeInStep(ms, k, b, out, toCome);
    assert out + [] == out;
    k' := if Take(b).1.Some? then k + 1 else k;
  }

  lemma LastInStep(ms: seq<Message>, k: nat, front: seq<Event>, last: Event, toCome: Bytes) returns (k': nat)
    requires AfterRun(ms, k, front, if last.Fed? then last.chunk + toCome else toCome)
    requires last == Taken ==> Run([], front).0 != [MAGIC[0]]
    ensures AfterRun(ms, k', front + [last], toCome)
  {
    if last.Fed? {
      FedInStep(ms, k, front, last.chunk, toCome);
      k' := k;
    } else {
      k' := TakenInStep(ms, k, front, toCome);
    }
  }

  lemma NeverAloneBefore(front: seq<Event>, last: Event)
    requires NeverAlone(front + [last])
    ensures NeverAlone(front)
    ensures last == Taken ==> Run([], front).0 != [MAGIC[0]]
  {
    var es := front + [last];
    forall n | 0 <= n < |front| && front[n] == Taken
      ensures Run([], front[..n]).0 != [MAGIC[0]]
    {
      assert front[..n] == es[..n] && es[n] == Taken;
    }
    assert es[..|front|] == front;
  }

  lemma FedBefore(front: seq<Event>, last: Event, toCome: Bytes)
    ensures FedBytes(front + [last]) + toCome ==
            FedBytes(front) + (if last.Fed? then last.chunk + toCome else toCome)
  {
    assert (front + [last])[..|front|] == front;
  }

  lemma {:induction false} RunInStep(ms: seq<Message>, es: seq<Event>, toCome: Bytes) returns (k: nat)
    requires (forall m :: m in ms ==> Fits(m)) && FedBytes(es) + toCome == Stream(ms) && NeverAlone(es)
    ensures AfterRun(ms, k, es, toCome)
    decreases |es|
  {
    if es == [] {
      k := 0;
      assert ms[0..] == ms;
    } else {
      var front, last := es[..|es| - 1], es[|es| - 1];
      var more := if last.Fed? then last.chunk + toCome else toCome;
      assert es == front + [last];
      SplitLast(front, last, toCome, Stream(ms));
      k := RunInStep(ms, front, more);
      k := LastInStep(ms, k, front, last, toCome);
    }
  }

  lemma SplitLast(front: seq<Event>, last: Event, toCome: Bytes, all: Bytes)
    requires FedBytes(front + [last]) + toCome == all && NeverAlone(front + [last])
    ensures FedBytes(front) + (if last.Fed? then last.chunk + toCome else toCome) == all
    ensures NeverAlone(front) && (last == Taken ==> Run([], front).0 != [MAGIC[0]])
  {
    NeverAloneBefore(front, last);
    FedBefore(front, last, toCome);
  }

  // ------------------------------------------------ the condition on the chunks

  /** n bytes of the stream end between the two bytes of a message's magic. */
  ghost predicate SplitsMagic(ms: seq<Message>, n: nat)
    requires forall m :: m in ms ==> Fits(m)
  {
    exists j :: 0 <= j < |ms| && n == Before(ms, j) + 1
  }

  /** The bytes of the first j frames. */
  function Before(ms: seq<Message>, j: nat): nat
    requires (forall m :: m in ms ==> Fits(m)) && j <= |ms|
  {
    |Stream(ms[..j])|
  }

  /** No take comes when the bytes fed so far end between the two bytes of a magic. */
  ghost predicate SplitsNone(ms: seq<Message>, es: seq<Event>)
    requires forall m :: m in ms ==> Fits(m)
  {
    forall n :: 0 <= n < |es| && es[n] == Taken ==> !SplitsMagic(ms, |FedBytes(es[..n])|)
  }

  lemma {:induction false} StreamSplits(ms: seq<Message>, k: nat)
    requires (forall m :: m in ms ==> Fits(m)) && k <= |ms|
    ensures |Stream(ms)| == Before(ms, k) + |Stream(ms[k..])|
    decreases k
  {
    if k == 0 {
      assert ms[..0] == [] && ms[0..] == ms;
    } else {
      StreamSplits(ms[1..], k - 1);
      assert ms[..k][0] == ms[0] && ms[..k][1..] == ms[1..][..k - 1] && ms[1..][k - 1..] == ms[k..];
    }
  }

  /** In step, the buffer is one byte of a magic alone only between the two bytes of that magic. */
  lemma AloneIsSplit(ms: seq<Message>, k: nat, buf: Bytes, out: seq<Message>, toCome: Bytes, fed: Bytes)
    requires InStep(ms, k, buf, out, toCome) && fed + toCome == Stream(ms) && buf == [MAGIC[0]]
    ensures SplitsMagic(ms, |fed|)
  {
    StreamSplits(ms, k);
    assert |buf + toCome| == |Stream(ms[k..])|;
    assert |fed| == Before(ms, k) + 1;
    assert k < |ms|;
  }

  lemma {:induction false} SplitsNoneNeverAlone(ms: seq<Message>, es: seq<Event>, toCome: Bytes)
    requires (forall m :: m in ms ==> Fits(m)) && FedBytes(es) + toCome == Stream(ms) && SplitsNone(ms, es)
    ensures NeverAlone(es)
    decreases |es|
  {
    if es != [] {
      var front, last := es[..|es| - 1], es[|es| - 1];
      assert es == front + [last];
      var more := if last.Fed? then last.chunk + toCome else toCome;
      FedBefore(front, last, toCome);
      PrefixSplitsNone(ms, front, last);
      SplitsNoneNeverAlone(ms, front, more);
      assert es[..|front|] == front;
      var k := RunInStep(ms, front, more);
      if last == Taken && Run([], front).0 == [MAGIC[0]] {
        AloneIsSplit(ms, k, Run([], front).0, Run([], front).1, more, FedBytes(front));
        assert false;
      }
      NeverAloneMore(front, last);
    }
  }

  lemma PrefixSplitsNone(ms: seq<Message>, front: seq<Event>, last: Event)
    requires (forall m :: m in ms ==> Fits(m)) && SplitsNone(ms, front + [last])
    ensures SplitsNone(ms, front)
  {
    var es := front + [last];
    forall n | 0 <= n < |front| && front[n] == Taken
      ensures !SplitsMagic(ms, |FedBytes(front[..n])|)
    {
      assert front[..n] == es[..n] && es[n] == Taken;
    }
  }

  lemma NeverAloneMore(front: seq<Event>, last: Event)
    requires NeverAlone(front) && (last == Taken ==> Run([], front).0 != [MAGIC[0]])
    ensures NeverAlone(front + [last])
  {
    var es := front + [last];
    forall n | 0 <= n < |es| && es[n] == Taken
      ensures Run([], es[..n]).0 != [MAGIC[0]]
    {
      if n < |front| {
        assert es[..n] == front[..n] && front[n] == Taken;
      } else {
        assert es[..n] == front;
      }
    }
  }

  /** Round trip: the frames of any messages, fed in any chunks, with takes at any points but between the two
      bytes of a frame's magic, give those messages in order; and once all is fed, a take that finds nothing
      means all were delivered. */
  lemma RoundTrip(ms: seq<Message>, es: seq<Event>)
    requires (forall m :: m in ms ==> Fits(m)) && FedBytes(es) == Stream(ms) && SplitsNone(ms, es)
    ensures Run([], es).1 <= ms
    ensures Take(Run([], es).0).1.None? ==> Run([], es).1 == ms
  {
    assert FedBytes(es) + [] == Stream(ms);
    SplitsNoneNeverAlone(ms, es, []);
    var k := RunInStep(ms, es, []);
    WholeNotSplit(ms);
    if Run([], es).0 == [MAGIC[0]] {
      AloneIsSplit(ms, k, Run([], es).0, Run([], es).1, [], FedBytes(es));
    }
    TakeInStep(ms, k, Run([], es).0, Run([], es).1, []);
  }

  /** The whole stream does not end between the bytes of a magic. */
  lemma WholeNotSplit(ms: seq<Message>)
    requires forall m :: m in ms ==> Fits(m)
    ensures !SplitsMagic(ms, |Stream(ms)|)
  {
    forall j | 0 <= j < |ms|
      ensures |Stream(ms)| != Before(ms, j) + 1
    {
      StreamSplits(ms, j);
      assert |Stream(ms[j..])| >= |Frame(ms[j..][0])|;
    }
  }

  // ------------------------------------------------ exactly which split loses a frame

  /** A message taken from a buffer is at least ten bytes shorter than it. */
  lemma {:induction false} TakeShorter(buf: Bytes)
    ensures Take(buf).1.Some? ==> |Take(buf).1.value.data| + 10 <= |buf|
    decreases |buf|
  {
    var start := Find(buf, 0);
    if start >= 0 {
      FrontShorter(buf[start..]);
      match Front(buf[start..])
      case Drop(n) => TakeShorter(buf[start..][n..]);
      case _ =>
    }
  }

  lemma FrontShorter(t: Bytes)
    ensures Front(t).Got? ==> |Front(t).message.data| + 10 <= |t|
  {
  }

  /** If the first magic is further in, the message is shorter by as much. */
  lemma TakeFurtherIn(buf: Bytes, n: nat)
    requires n <= |buf| && forall i :: 0 <= i < n ==> !MagicAt(buf, i)
    ensures Take(buf).1.Some? ==> |Take(buf).1.value.data| + 10 + n <= |buf|
  {
    var start := Find(buf, 0);
    if start >= 0 {
      FrontShorter(buf[start..]);
      match Front(buf[start..])
      case Drop(k) => TakeShorter(buf[start..][k..]);
      case _ =>
    }
  }

  /** A frame whose length field reads AB CD, seen from that field on, does not pass for itself:
      it would need two different kinds. */
  lemma LengthIsMagic(m: Message)
    requires Fits(m) && Frame(m)[2..4] == MAGIC
    ensures Front(Frame(m)[2..]).Got? ==> Front(Frame(m)[2..]).message != m
  {
    var f, t := Frame(m), Frame(m)[2..];
    MagicLength(m);
    NotItself(m);
    assert t[2..4] == f[4..6] && t[4] == f[6] && t[5] == f[7];
    if Front(t).Got? && Front(t).message == m {
      LengthOfGot(t, |m.data|);
    }
  }

  lemma NotItself(m: Message)
    requires Fits(m) && |m.data| == 52647
    ensures var f := Frame(m);
            UnLe16(f[4..6]) == 52649 ==> m.kind != UnLe16([XorByte(f[6], 0x16), XorByte(f[7], 0x6c)])
  {
    var f := Frame(m);
    FieldBytes(m);
    DataLengthBytes(|m.data|);
    SecondPair(f, m.kind, f[6..8]);
  }

  lemma SecondPair(f: Bytes, kind: nat, b: Bytes)
    requires |f| >= 8 && b == f[6..8] && kind < 0x1_0000
    requires f[4..6] == [XorByte(kind % 256, 0x16), XorByte(kind / 256, 0x6c)]
    requires b == [XorByte(0xa7, 0x14), XorByte(0xcd, 0xe6)]
    ensures UnLe16(f[4..6]) == 52649 ==> kind != UnLe16([XorByte(f[6], 0x16), XorByte(f[7], 0x6c)])
  {
    assert f[6] == b[0] && f[7] == b[1];
    if UnLe16(f[4..6]) == 52649 {
      TwoKinds(kind, f[4..6], b);
    }
  }

  lemma MagicLength(m: Message)
    requires Fits(m) && Frame(m)[2..4] == MAGIC
    ensures |m.data| == 52647
  {
    FrameParts(m);
    assert UnLe16(MAGIC) == 52651;
  }

  lemma DataLengthBytes(n: nat)
    requires n == 52647
    ensures n % 256 == 0xa7 && n / 256 == 0xcd
  {
  }

  lemma TwoKinds(kind: nat, a: Bytes, b: Bytes)
    requires kind < 0x1_0000 && |a| == |b| == 2 && UnLe16(a) == 52649
    requires a == [XorByte(kind % 256, 0x16), XorByte(kind / 256, 0x6c)]
    requires b == [XorByte(0xa7, 0x14), XorByte(0xcd, 0xe6)]
    ensures kind != UnLe16([XorByte(b[0], 0x16), XorByte(b[1], 0x6c)])
  {
    KindFromLength(a[0], a[1], kind);
    KindFromData(b[0], b[1]);
  }

  lemma KindFromLength(a: Byte, b: Byte, kind: nat)
    requires kind < 0x1_0000 && a == Xor(kind % 256, 0x16) && b == Xor(kind / 256, 0x6c)
    requires UnLe16([a, b]) == 52649
    ensures kind == 0xa1bf
  {
    XorTwice(kind % 256, 0x16);
    XorTwice(kind / 256, 0x6c);
    LengthBytes(a, b);
    XorLengths();
  }

  lemma LengthBytes(a: Byte, b: Byte)
    requires UnLe16([a, b]) == 52649
    ensures a == 0xa9 && b == 0xcd
  {
  }

  lemma KindFromData(a: Byte, b: Byte)
    requires a == Xor(0xa7, 0x14) && b == Xor(0xcd, 0xe6)
    ensures Xor(a, 0x16) == 0xa5 && Xor(b, 0x6c) == 0x47
  {
    XorData();
    XorKinds();
  }

  /** If a frame yields its longest possible data, its length field says so, and its kind is the
      first two body bytes decoded. */
  lemma LengthOfGot(t: Bytes, n: nat)
    requires Front(t).Got? && |Front(t).message.data| == n && |t| == n + 10
    ensures UnLe16(t[2..4]) == n + 2
    ensures Front(t).message.kind == UnLe16([XorByte(t[4], 0x16), XorByte(t[5], 0x6c)])
  {
    var end := 6 + UnLe16(t[2..4]);
    var body := Obfuscate(t[4..end]);
    assert body[..2] == [body[0], body[1]];
  }

  lemma FieldBytes(m: Message)
    requires Fits(m)
    ensures Frame(m)[4..6] == [XorByte(m.kind % 256, 0x16), XorByte(m.kind / 256, 0x6c)]
    ensures Frame(m)[6..8] == [XorByte(|m.data| % 256, 0x14), XorByte(|m.data| / 256, 0xe6)]
  {
    var f := Frame(m);
    var body := Payload(m) + CrcField(Payload(m));
    FrameParts(m);
    BodyParts(m);
    FirstFour(f, body, Obfuscate(body));
  }

  lemma FirstFour(f: Bytes, body: Bytes, veiled: Bytes)
    requires |f| >= 10 && |body| >= 4 && f[4..|f| - 2] == veiled && veiled == Obfuscate(body)
    ensures f[4..6] == [XorByte(body[..2][0], 0x16), XorByte(body[..2][1], 0x6c)]
    ensures f[6..8] == [XorByte(body[2..4][0], 0x14), XorByte(body[2..4][1], 0xe6)]
  {
    assert f[4] == veiled[0] && f[5] == veiled[1] && f[6] == veiled[2] && f[7] == veiled[3];
  }

  lemma XorLengths()
    ensures Xor(0xa9, 0x16) == 0xbf && Xor(0xcd, 0x6c) == 0xa1
  {
    assert Xor(0xa, 0x1) == 0xb && Xor(0xc, 0x6) == 0xa;
  }

  lemma XorData()
    ensures Xor(0xa7, 0x14) == 0xb3 && Xor(0xcd, 0xe6) == 0x2b
  {
    XorDataLow();
    XorDataHigh();
  }

  lemma XorDataLow()
    ensures Xor(0xa7, 0x14) == 0xb3
  {
    assert Xor(0xa, 0x1) == 0xb;
  }

  lemma XorDataHigh()
    ensures Xor(0xcd, 0xe6) == 0x2b
  {
    assert Xor(0xc, 0xe) == 0x2;
  }

  lemma XorKinds()
    ensures Xor(0xb3, 0x16) == 0xa5 && Xor(0x2b, 0x6c) == 0x47
  {
    XorKindLow();
    XorKindHigh();
  }

  lemma XorKindLow()
    ensures Xor(0xb3, 0x16) == 0xa5
  {
    assert Xor(0xb, 0x1) == 0xa;
  }

  lemma XorKindHigh()
    ensures Xor(0x2b, 0x6c) == 0x47
  {
    assert Xor(0x2, 0x6) == 0x4;
  }

  /** The message of these bytes, if they are a frame from its magic to its end. */
  function Only(b: Bytes): Option<Message>
  {
    if MagicAt(b, 0) && Front(b).Got? && Front(b).used == |b| then Some(Front(b).message) else None
  }

  lemma FrontAlone(t: Bytes, n: nat, m: Message)
    requires MagicAt(t, 0) && Front(t) == Got(n, m)
    ensures Only(t[..n]) == Some(m)
  {
    var u, end := t[..n], 6 + UnLe16(t[2..4]);
    assert u[2..4] == t[2..4] && u[end..end + 2] == t[end..end + 2] && u[4..end] == t[4..end];
    assert u[0..2] == t[0..2];
  }

  lemma OnlyTaken(b: Bytes, m: Message)
    requires Only(b) == Some(m)
    ensures Take(b).1 == Some(m)
  {
    assert Find(b, 0) == 0 && b[0..] == b;
  }

  /** What is kept is the end of the buffer from d on; and a message taken is what the bytes from p on amount to. */
  ghost predicate Spans(buf: Bytes, p: nat, d: nat, taken: (Bytes, Option<Message>))
  {
    && p <= d <= |buf| && taken.0 == buf[d..]
    && (taken.1.Some? ==> MagicAt(buf, p) && Front(buf[p..]) == Got(d - p, taken.1.value))
  }

  lemma DeeperSpans(buf: Bytes, n: nat, left: Bytes, p: nat, d: nat, taken: (Bytes, Option<Message>))
    requires n <= |buf| && left == buf[n..] && Spans(left, p, d, taken)
    ensures Spans(buf, n + p, n + d, taken)
  {
    assert buf[n..][d..] == buf[n + d..] && buf[n..][p..] == buf[n + p..];
    assert taken.1.Some? ==> buf[n..][p..p + 2] == buf[n + p..n + p + 2];
  }

  lemma TakeDrops(buf: Bytes, start: nat, n: nat)
    requires Find(buf, 0) == start && Front(buf[start..]) == Drop(n)
    ensures start + n <= |buf| && Take(buf) == Take(buf[start + n..])
  {
    assert buf[start..][n..] == buf[start + n..];
  }

  lemma TakeGets(buf: Bytes, start: nat, n: nat, m: Message)
    requires Find(buf, 0) == start && Front(buf[start..]) == Got(n, m)
    ensures Spans(buf, start, start + n, Take(buf))
  {
    assert buf[start..][n..] == buf[start + n..];
  }

  lemma TakeKeeps(buf: Bytes, start: nat)
    requires Find(buf, 0) == start && Front(buf[start..]) == Keep
    ensures Spans(buf, start, start, Take(buf))
  {
  }

  lemma TakeEnds(buf: Bytes)
    requires Find(buf, 0) < 0
    ensures Spans(buf, |buf|, |buf|, Take(buf))
  {
  }

  /** The bytes that one turn of the loop drops before it goes on; none if it ends. */
  function Dropped(buf: Bytes): (k: nat)
    ensures k <= |buf|
  {
    var start := Find(buf, 0);
    if start < 0 then 0 else match Front(buf[start..]) case Drop(n) => start + n case _ => 0
  }

  lemma DroppedTake(buf: Bytes)
    ensures Dropped(buf) > 0 ==> Take(buf) == Take(buf[Dropped(buf)..])
  {
    var start := Find(buf, 0);
    if start >= 0 {
      match Front(buf[start..])
      case Drop(n) => TakeDrops(buf, start, n);
      case _ =>
    }
  }

  lemma LastTurn(buf: Bytes, taken: (Bytes, Option<Message>)) returns (p: nat, d: nat)
    requires Dropped(buf) == 0 && taken == Take(buf)
    ensures Spans(buf, p, d, taken)
  {
    var start := Find(buf, 0);
    if start < 0 {
      p, d := |buf|, |buf|;
      TakeEnds(buf);
    } else {
      match Front(buf[start..])
      case Keep =>
        p, d := start, start;
        TakeKeeps(buf, start);
      case Got(n, m) =>
        p, d := start, start + n;
        TakeGets(buf, start, n, m);
    }
  }

  lemma AfterDrops(buf: Bytes, taken: (Bytes, Option<Message>)) returns (at: nat, left: Bytes, p: nat, d: nat)
    requires taken == Take(buf)
    ensures at <= |buf| && left == buf[at..] && Spans(left, p, d, taken)
  {
    at, left := 0, buf;
    while Dropped(left) > 0
      invariant at <= |buf| && left == buf[at..] && taken == Take(left)
      decreases |left|
    {
      var k := Dropped(left);
      DroppedTake(left);
      assert left[k..] == buf[at + k..];
      at, left := at + k, left[k..];
    }
    p, d := LastTurn(left, taken);
  }

  lemma TakenFrom(buf: Bytes, taken: (Bytes, Option<Message>)) returns (p: nat, d: nat)
    requires taken == Take(buf)
    ensures Spans(buf, p, d, taken)
  {
    var at, left, first, last := AfterDrops(buf, taken);
    DeeperSpans(buf, at, left, first, last, taken);
    p, d := at + first, at + last;
  }

  /** The message taken is that of the frame from p to d, and what is kept starts at d. */
  lemma TakenOnly(buf: Bytes) returns (p: nat, d: nat)
    ensures p <= d <= |buf| && Take(buf).0 == buf[d..]
    ensures Take(buf).1.Some? ==> Only(buf[p..d]) == Take(buf).1
  {
    p, d := TakenFrom(buf, Take(buf));
    if Take(buf).1.Some? {
      OnlyFrom(buf, p, d, Take(buf).1.value);
    }
  }

  lemma OnlyFrom(buf: Bytes, p: nat, d: nat, m: Message)
    requires p <= d <= |buf| && MagicAt(buf, p) && Front(buf[p..]) == Got(d - p, m)
    ensures Only(buf[p..d]) == Some(m)
  {
    MagicFirst(buf, p);
    FrontAlone(buf[p..], d - p, m);
    assert buf[p..][..d - p] == buf[p..d];
  }

  lemma MagicFirst(buf: Bytes, p: nat)
    requires MagicAt(buf, p)
    ensures MagicAt(buf[p..], 0)
  {
    assert buf[p..][0..2] == buf[p..p + 2];
  }

  /** No part of a frame without its first byte yields the frame's message. */
  lemma BeheadedFrameLost(m: Message, s: nat, q: nat)
    requires Fits(m) && 1 <= s <= q <= |Frame(m)|
    ensures Take(Frame(m)[s..q]).1 != Some(m)
  {
    var f, b := Frame(m), Frame(m)[s..q];
    TakeShorter(b);
    if s == 1 {
      if q == |f| {
        assert b == f[1..];
        WithoutFirst(m);
      } else {
        FirstCut(m, b, q);
      }
    } else if s == 2 && q == |f| {
      assert b == f[2..];
      WithoutMagic(m);
    }
  }

  lemma FirstCut(m: Message, b: Bytes, q: nat)
    requires Fits(m) && 1 <= q < |Frame(m)| && b == Frame(m)[1..q]
    ensures Take(b).1 != Some(m)
  {
    FrameParts(m);
    assert Frame(m)[1] == Frame(m)[..2][1] == 0xcd;
    if |b| == 0 {
      TakeShorter(b);
    } else {
      assert b[0] == 0xcd && !MagicAt(b, 0);
      TakeFurtherIn(b, 1);
    }
  }

  lemma WithoutFirst(m: Message)
    requires Fits(m)
    ensures Take(Frame(m)[1..]).1 != Some(m)
  {
    var b := Frame(m)[1..];
    FrameParts(m);
    assert b[0] == Frame(m)[..2][1] == 0xcd;
    assert !MagicAt(b, 0);
    if MagicAt(b, 1) {
      assert b[1..3] == Frame(m)[2..4];
      assert Find(b, 0) == 1 && b[1..] == Frame(m)[2..];
      LengthIsMagic(m);
      match Front(b[1..])
      case Drop(n) => TakeShorter(b[1..][n..]);
      case _ =>
    } else {
      TakeFurtherIn(b, 2);
    }
  }

  lemma WithoutMagic(m: Message)
    requires Fits(m)
    ensures Take(Frame(m)[2..]).1 != Some(m)
  {
    var b := Frame(m)[2..];
    if MagicAt(b, 0) {
      assert b[0..2] == Frame(m)[2..4];
      assert Find(b, 0) == 0 && b[0..] == b;
      LengthIsMagic(m);
      match Front(b)
      case Drop(n) => TakeShorter(b[n..]);
      case _ =>
    } else {
      TakeFurtherIn(b, 1);
    }
  }

  /** Some take came when one byte had been fed. */
  ghost predicate TookOne(es: seq<Event>)
  {
    exists n :: 0 <= n < |es| && es[n] == Taken && |FedBytes(es[..n])| == 1
  }

  lemma TookOneMore(front: seq<Event>, last: Event)
    ensures TookOne(front + [last]) <==> TookOne(front) || (last == Taken && |FedBytes(front)| == 1)
  {
    var es := front + [last];
    assert es[..|front|] == front && es[|front|] == last;
    forall n | 0 <= n < |front|
      ensures es[..n] == front[..n] && es[n] == front[n]
    {
    }
    if TookOne(front) {
      var n :| 0 <= n < |front| && front[n] == Taken && |FedBytes(front[..n])| == 1;
      assert es[n] == Taken && |FedBytes(es[..n])| == 1;
    }
  }

  /** One frame's bytes end between the bytes of its magic exactly after the first. */
  lemma OneIsSplit(m: Message, n: nat)
    requires Fits(m)
    ensures SplitsMagic([m], n) <==> n == 1
  {
    assert [m][..0] == [];
    assert Before([m], 0) == 0;
  }

  lemma NotTookOneSplitsNone(m: Message, es: seq<Event>)
    requires Fits(m) && !TookOne(es)
    ensures SplitsNone([m], es)
  {
    forall n | 0 <= n < |es| && es[n] == Taken
      ensures !SplitsMagic([m], |FedBytes(es[..n])|)
    {
      OneIsSplit(m, |FedBytes(es[..n])|);
    }
  }

  lemma RunMore(front: seq<Event>, last: Event)
    ensures var (b, out) := Run([], front);
            Run([], front + [last]) ==
            if last.Fed? then (b + last.chunk, out) else (Take(b).0, out + Delivered(Take(b).1))
    ensures FedBytes(front + [last]) == FedBytes(front) + (if last.Fed? then last.chunk else [])
  {
    assert (front + [last])[..|front|] == front;
  }

  lemma FirstTaken(m: Message, front: seq<Event>, more: Bytes)
    requires Fits(m) && FedBytes(front) + more == Frame(m) && !TookOne(front) && |FedBytes(front)| == 1
    ensures Run([], front) == ([MAGIC[0]], []) && Take([MAGIC[0]]) == ([], None)
  {
    var f := Frame(m);
    StreamOne(m);
    NotTookOneSplitsNone(m, front);
    SplitsNoneNeverAlone([m], front, more);
    var k := RunInStep([m], front, more);
    assert [m][1..] == [] && [m][0..] == [m];
    assert |Run([], front).0 + more| == |Stream([m][k..])|;
    assert k == 0;
    var b := Run([], front).0;
    assert |b| == 1 && b == (b + more)[..1];
    FirstByte(m, b);
    TakeDiscards([MAGIC[0]]);
  }

  lemma StreamOne(m: Message)
    requires Fits(m)
    ensures Stream([m]) == Frame(m)
  {
    assert [m][1..] == [];
    assert Frame(m) + [] == Frame(m);
  }

  // ------------------------------------------------ exactly which runs lose a frame of a stream

  /** Where the frames start, and where the last one ends. */
  function Starts(ms: seq<Message>): (r: seq<nat>)
    requires forall m :: m in ms ==> Fits(m)
    ensures |r| == |ms| + 1
  {
    seq(|ms| + 1, i requires 0 <= i <= |ms| => Before(ms, i))
  }

  /** No part of a frame without its first byte is, by itself, that frame's message. */
  ghost predicate Sealed(ms: seq<Message>, starts: seq<nat>, all: Bytes)
  {
    && |starts| == |ms| + 1 && starts[|ms|] == |all| && (forall i :: 0 <= i < |starts| ==> starts[i] <= |all|)
    && forall i :: 0 <= i < |ms| ==> GuardedAt(ms, starts, all, i)
  }

  ghost predicate GuardedAt(ms: seq<Message>, starts: seq<nat>, all: Bytes, i: nat)
    requires |starts| == |ms| + 1 && i < |ms|
  {
    Guarded(all, starts[i], starts[i + 1], ms[i])
  }

  lemma {:induction false} StreamJoins(ms: seq<Message>, k: nat)
    requires (forall m :: m in ms ==> Fits(m)) && k <= |ms|
    ensures Stream(ms) == Stream(ms[..k]) + Stream(ms[k..])
    decreases k
  {
    if k == 0 {
      assert ms[..0] == [] && ms[0..] == ms;
    } else {
      StreamJoins(ms[1..], k - 1);
      BehindFirstOne(ms, k);
      Associates(Frame(ms[0]), Stream(ms[1..][..k - 1]), Stream(ms[k..]));
    }
  }

  lemma BehindFirstOne<T>(s: seq<T>, k: nat)
    requires 0 < k <= |s|
    ensures s[..k][0] == s[0] && s[..k][1..] == s[1..][..k - 1] && s[1..][k - 1..] == s[k..]
  {
  }

  lemma Associates(x: Bytes, y: Bytes, z: Bytes)
    ensures x + (y + z) == x + y + z
  {
  }

  /** Where frame i stands in the stream. */
  lemma FrameAt(ms: seq<Message>, i: nat)
    requires (forall m :: m in ms ==> Fits(m)) && i < |ms|
    ensures Before(ms, i + 1) == Before(ms, i) + |Frame(ms[i])| <= |Stream(ms)|
    ensures Stream(ms)[Before(ms, i)..Before(ms, i + 1)] == Frame(ms[i])
  {
    StreamJoins(ms, i);
    StreamSplits(ms, i + 1);
    FirstFrame(ms, i);
    Placed(Stream(ms), Stream(ms[..i]), Frame(ms[i]), Stream(ms[i + 1..]), Before(ms, i), Before(ms, i + 1));
  }

  lemma Placed(all: Bytes, x: Bytes, f: Bytes, z: Bytes, at: nat, next: nat)
    requires all == x + (f + z) && at == |x| && |all| == next + |z|
    ensures next == at + |f| <= |all| && all[at..next] == f
  {
    Middle(x, f, z);
  }

  lemma FirstFrame(ms: seq<Message>, i: nat)
    requires (forall m :: m in ms ==> Fits(m)) && i < |ms|
    ensures Stream(ms[i..]) == Frame(ms[i]) + Stream(ms[i + 1..])
  {
    assert ms[i..][0] == ms[i] && ms[i..][1..] == ms[i + 1..];
  }

  lemma Middle(x: Bytes, f: Bytes, z: Bytes)
    ensures (x + (f + z))[|x|..|x| + |f|] == f
  {
  }

  /** No part of f without its first byte is a frame with that message. */
  ghost predicate NeedsFirst(f: Bytes, m: Message)
  {
    forall s, q :: 1 <= s <= q <= |f| ==> Only(f[s..q]) != Some(m)
  }

  lemma FrameNeedsFirst(m: Message)
    requires Fits(m)
    ensures NeedsFirst(Frame(m), m)
  {
    var f := Frame(m);
    forall s, q | 1 <= s <= q <= |f|
      ensures Only(f[s..q]) != Some(m)
    {
      BeheadedFrameLost(m, s, q);
      if Only(f[s..q]) == Some(m) {
        OnlyTaken(f[s..q], m);
      }
    }
  }

  /** A part of the bytes that starts inside a frame and does not reach over its end does not yield its message. */
  ghost predicate Guarded(all: Bytes, at: nat, next: nat, m: Message)
  {
    forall lo, hi :: at < lo <= hi <= |all| && hi <= next ==> Only(all[lo..hi]) != Some(m)
  }

  lemma PartLost(all: Bytes, at: nat, next: nat, f: Bytes, m: Message)
    requires NeedsFirst(f, m) && next == at + |f| <= |all| && all[at..next] == f
    ensures Guarded(all, at, next, m)
  {
    forall lo, hi | at < lo <= hi <= |all| && hi <= next
      ensures Only(all[lo..hi]) != Some(m)
    {
      Inside(all, at, next, f, lo, hi);
    }
  }

  lemma SliceOfSlice(s: Bytes, a: nat, z: nat, lo: nat, hi: nat)
    requires a <= z <= |s| && lo <= hi <= z - a
    ensures s[a..z][lo..hi] == s[a + lo..a + hi]
  {
    assert forall i :: 0 <= i < hi - lo ==> s[a..z][lo..hi][i] == s[a..z][lo + i] == s[a + lo + i];
  }

  lemma Inside(all: Bytes, at: nat, next: nat, f: Bytes, lo: nat, hi: nat)
    requires at <= lo <= hi <= next <= |all| && all[at..next] == f
    ensures all[lo..hi] == f[lo - at..hi - at]
  {
    SliceOfSlice(all, at, next, lo - at, hi - at);
  }

  lemma BeforeAll(ms: seq<Message>)
    requires forall m :: m in ms ==> Fits(m)
    ensures Before(ms, |ms|) == |Stream(ms)|
  {
    assert ms[..|ms|] == ms;
  }

  lemma FrameSealed(ms: seq<Message>, i: nat, all: Bytes, at: nat, next: nat)
    requires (forall m :: m in ms ==> Fits(m)) && i < |ms| && all == Stream(ms)
    requires at == Before(ms, i) && next == Before(ms, i + 1)
    ensures Guarded(all, at, next, ms[i])
  {
    FrameAt(ms, i);
    FrameNeedsFirst(ms[i]);
    PartLost(all, at, next, Frame(ms[i]), ms[i]);
  }

  lemma StartsWithin(ms: seq<Message>, i: nat)
    requires (forall m :: m in ms ==> Fits(m)) && i <= |ms|
    ensures Before(ms, i) <= |Stream(ms)|
  {
    StreamSplits(ms, i);
  }

  lemma StreamSealed(ms: seq<Message>)
    requires forall m :: m in ms ==> Fits(m)
    ensures Sealed(ms, Starts(ms), Stream(ms))
  {
    BeforeAll(ms);
    StartsBounded(ms, Starts(ms), Stream(ms));
    AllGuarded(ms, Starts(ms), Stream(ms));
  }

  ghost predicate AreStarts(ms: seq<Message>, starts: seq<nat>)
    requires forall m :: m in ms ==> Fits(m)
  {
    |starts| == |ms| + 1 && forall i :: 0 <= i <= |ms| ==> starts[i] == Before(ms, i)
  }

  lemma StartsBounded(ms: seq<Message>, starts: seq<nat>, all: Bytes)
    requires (forall m :: m in ms ==> Fits(m)) && all == Stream(ms) && AreStarts(ms, starts)
    ensures forall i :: 0 <= i < |starts| ==> starts[i] <= |all|
  {
    forall i | 0 <= i < |starts|
      ensures starts[i] <= |all|
    {
      StartsWithin(ms, i);
    }
  }

  lemma OneGuarded(ms: seq<Message>, starts: seq<nat>, all: Bytes, i: nat)
    requires (forall m :: m in ms ==> Fits(m)) && all == Stream(ms) && AreStarts(ms, starts) && i < |ms|
    ensures GuardedAt(ms, starts, all, i)
  {
    FrameSealed(ms, i, all, starts[i], starts[i + 1]);
  }

  lemma AllGuarded(ms: seq<Message>, starts: seq<nat>, all: Bytes)
    requires (forall m :: m in ms ==> Fits(m)) && all == Stream(ms) && AreStarts(ms, starts)
    ensures forall i :: 0 <= i < |ms| ==> GuardedAt(ms, starts, all, i)
  {
    forall i | 0 <= i < |ms|
      ensures GuardedAt(ms, starts, all, i)
    {
      OneGuarded(ms, starts, all, i);
    }
  }

  /** If the first messages have been delivered, the next frame starts before a. */
  ghost predicate Past(ms: seq<Message>, starts: seq<nat>, a: nat, out: seq<Message>)
    requires |starts| == |ms| + 1
  {
    out <= ms ==> |out| < |ms| && starts[|out|] < a
  }

  /** The buffer is the end of what was fed, from a on; and unless something else was delivered than the first
      messages, the next frame's first byte is gone. */
  ghost predicate Behind(ms: seq<Message>, starts: seq<nat>, a: nat, fed: Bytes, buf: Bytes, out: seq<Message>)
    requires |starts| == |ms| + 1
  {
    a <= |fed| && buf == fed[a..] && Past(ms, starts, a, out)
  }

  lemma Parts(all: Bytes, fed: Bytes, toCome: Bytes, buf: Bytes, a: nat, p: nat, d: nat)
    requires fed + toCome == all && a <= |fed| && buf == fed[a..] && p <= d <= |buf|
    ensures buf[d..] == fed[a + d..] && a + d <= |all| && buf[p..d] == all[a + p..a + d]
  {
    SliceOfSlice(fed, a, |fed|, p, d);
    assert fed[a..|fed|] == buf && all[a + p..a + d] == fed[a + p..a + d];
  }

  lemma OneDelivered(ms: seq<Message>, out: seq<Message>, m: Message)
    requires out + [m] <= ms
    ensures out <= ms && |out| < |ms| && ms[|out|] == m
  {
    assert ms[..|out| + 1] == out + [m];
    assert ms[..|out|] == ms[..|out| + 1][..|out|] && ms[|out|] == ms[..|out| + 1][|out|];
  }

  /** A message that is the next one, taken from behind its first byte, ends behind the first byte of the one after. */
  lemma PastNext(ms: seq<Message>, starts: seq<nat>, all: Bytes, out: seq<Message>, a: nat, lo: nat, hi: nat,
                 m: Message)
    requires Sealed(ms, starts, all) && Past(ms, starts, a, out)
    requires a <= lo <= hi <= |all| && Only(all[lo..hi]) == Some(m)
    ensures Past(ms, starts, hi, out + [m])
  {
    if out + [m] <= ms {
      OneDelivered(ms, out, m);
      assert GuardedAt(ms, starts, all, |out|);
    }
  }

  lemma BehindLess(ms: seq<Message>, starts: seq<nat>, all: Bytes, a: nat, fed: Bytes, toCome: Bytes, buf: Bytes,
                   out: seq<Message>, p: nat, d: nat, m: Option<Message>)
    requires Sealed(ms, starts, all) && fed + toCome == all && Behind(ms, starts, a, fed, buf, out)
    requires p <= d <= |buf| && (m.Some? ==> Only(buf[p..d]) == m)
    ensures Behind(ms, starts, a + d, fed, buf[d..], out + Delivered(m))
  {
    Parts(all, fed, toCome, buf, a, p, d);
    match m
    case None => assert out + [] == out;
    case Some(v) => PastNext(ms, starts, all, out, a, a + p, a + d, v);
  }

  lemma BehindTaken(ms: seq<Message>, starts: seq<nat>, all: Bytes, a: nat, fed: Bytes, toCome: Bytes, buf: Bytes,
                    out: seq<Message>) returns (b: nat)
    requires Sealed(ms, starts, all) && fed + toCome == all && Behind(ms, starts, a, fed, buf, out)
    ensures Behind(ms, starts, b, fed, Take(buf).0, out + Delivered(Take(buf).1))
  {
    var p, d := TakenOnly(buf);
    b := a + d;
    BehindLess(ms, starts, all, a, fed, toCome, buf, out, p, d, Take(buf).1);
  }

  lemma BehindFed(ms: seq<Message>, starts: seq<nat>, a: nat, fed: Bytes, buf: Bytes, out: seq<Message>, chunk: Bytes)
    requires |starts| == |ms| + 1 && Behind(ms, starts, a, fed, buf, out)
    ensures Behind(ms, starts, a, fed + chunk, buf + chunk, out)
  {
    assert fed[a..] + chunk == (fed + chunk)[a..];
  }

  /** After the run the buffer is behind. */
  ghost predicate BehindAfter(ms: seq<Message>, starts: seq<nat>, a: nat, es: seq<Event>)
    requires |starts| == |ms| + 1
  {
    Behind(ms, starts, a, FedBytes(es), Run([], es).0, Run([], es).1)
  }

  lemma BehindStep(ms: seq<Message>, starts: seq<nat>, all: Bytes, a: nat, front: seq<Event>, last: Event,
                   toCome: Bytes)
    returns (b: nat)
    requires Sealed(ms, starts, all) && FedBytes(front + [last]) + toCome == all && BehindAfter(ms, starts, a, front)
    ensures BehindAfter(ms, starts, b, front + [last])
  {
    var fed, buf, out := FedBytes(front), Run([], front).0, Run([], front).1;
    RunMore(front, last);
    if last == Taken {
      assert fed + [] == fed;
      b := BehindTaken(ms, starts, all, a, fed, toCome, buf, out);
    } else {
      BehindFed(ms, starts, a, fed, buf, out, last.chunk);
      b := a;
    }
  }

  lemma FirstAlone(front: seq<Event>, last: Event)
    requires NeverAlone(front) && !NeverAlone(front + [last])
    ensures last == Taken && Run([], front).0 == [MAGIC[0]]
  {
    if last.Fed? || Run([], front).0 != [MAGIC[0]] {
      NeverAloneMore(front, last);
    }
  }

  lemma BehindFirst(ms: seq<Message>, front: seq<Event>, toCome: Bytes)
    requires (forall m :: m in ms ==> Fits(m)) && FedBytes(front) + toCome == Stream(ms) && NeverAlone(front)
    requires Run([], front).0 == [MAGIC[0]]
    ensures BehindAfter(ms, Starts(ms), |FedBytes(front)|, front + [Taken])
  {
    var k := RunInStep(ms, front, toCome);
    TakeDiscards([MAGIC[0]]);
    RunMore(front, Taken);
    NothingKept(ms, k, FedBytes(front), toCome, Run([], front).1);
  }

  lemma NothingKept(ms: seq<Message>, k: nat, fed: Bytes, toCome: Bytes, out: seq<Message>)
    requires InStep(ms, k, [MAGIC[0]], out, toCome) && fed + toCome == Stream(ms)
    ensures Behind(ms, Starts(ms), |fed|, fed + [], [], out + [])
  {
    StreamSplits(ms, k);
    assert |[MAGIC[0]] + toCome| == |Stream(ms[k..])|;
    assert |fed| == Before(ms, k) + 1 && k < |ms|;
    assert fed + [] == fed && out + [] == ms[..k];
  }

  lemma BehindNow(ms: seq<Message>, front: seq<Event>, last: Event, toCome: Bytes) returns (a: nat)
    requires (forall m :: m in ms ==> Fits(m)) && FedBytes(front) + toCome == Stream(ms)
    requires NeverAlone(front) && !NeverAlone(front + [last])
    ensures BehindAfter(ms, Starts(ms), a, front + [last])
  {
    FirstAlone(front, last);
    BehindFirst(ms, front, toCome);
    a := |FedBytes(front)|;
  }

  lemma BehindStill(ms: seq<Message>, a: nat, front: seq<Event>, last: Event, toCome: Bytes) returns (b: nat)
    requires (forall m :: m in ms ==> Fits(m)) && FedBytes(front + [last]) + toCome == Stream(ms)
    requires BehindAfter(ms, Starts(ms), a, front)
    ensures BehindAfter(ms, Starts(ms), b, front + [last])
  {
    StreamSealed(ms);
    b := BehindStep(ms, Starts(ms), Stream(ms), a, front, last, toCome);
  }

  /** Once a take found the first byte of a frame alone, the run never again delivers what it should. */
  lemma {:induction false} BehindForGood(ms: seq<Message>, es: seq<Event>, toCome: Bytes) returns (a: nat)
    requires (forall m :: m in ms ==> Fits(m)) && FedBytes(es) + toCome == Stream(ms) && !NeverAlone(es)
    ensures BehindAfter(ms, Starts(ms), a, es)
    decreases |es|
  {
    var front, last := es[..|es| - 1], es[|es| - 1];
    var more := if last.Fed? then last.chunk + toCome else toCome;
    assert es == front + [last];
    FedBefore(front, last, toCome);
    if NeverAlone(front) {
      a := BehindNow(ms, front, last, more);
    } else {
      a := BehindForGood(ms, front, more);
      a := BehindStill(ms, a, front, last, toCome);
    }
  }

  /** A stream of frames, fed in any chunks with takes at any points, and taken from until nothing more is found,
      arrives exactly if no take found the first byte of a frame alone. */
  lemma StreamExactly(ms: seq<Message>, es: seq<Event>)
    requires (forall m :: m in ms ==> Fits(m)) && FedBytes(es) == Stream(ms) && Take(Run([], es).0).1.None?
    ensures Run([], es).1 == ms <==> NeverAlone(es)
  {
    assert FedBytes(es) + [] == Stream(ms);
    if NeverAlone(es) {
      var k := RunInStep(ms, es, []);
      WholeNotSplit(ms);
      if Run([], es).0 == [MAGIC[0]] {
        AloneIsSplit(ms, k, Run([], es).0, Run([], es).1, [], FedBytes(es));
      }
      TakeInStep(ms, k, Run([], es).0, Run([], es).1, []);
      assert ms[..|ms|] == ms;
    } else {
      var a := BehindForGood(ms, es, []);
    }
  }

  lemma AloneOnOne(m: Message, front: seq<Event>, more: Bytes)
    requires Fits(m) && FedBytes(front) + more == Frame(m) && !TookOne(front) && |FedBytes(front)| == 1
    ensures !NeverAlone(front + [Taken])
  {
    FirstTaken(m, front, more);
    var es := front + [Taken];
    assert es[..|front|] == front && es[|front|] == Taken;
  }

  lemma {:induction false} TookOneAlone(m: Message, es: seq<Event>, toCome: Bytes)
    requires Fits(m) && FedBytes(es) + toCome == Frame(m) && TookOne(es)
    ensures !NeverAlone(es)
    decreases |es|
  {
    var front, last := es[..|es| - 1], es[|es| - 1];
    var more := if last.Fed? then last.chunk + toCome else toCome;
    assert es == front + [last];
    TookOneMore(front, last);
    FedBefore(front, last, toCome);
    if TookOne(front) {
      TookOneAlone(m, front, more);
      if NeverAlone(es) {
        NeverAloneBefore(front, last);
      }
    } else {
      AloneOnOne(m, front, more);
    }
  }

  /** One frame, fed in any pieces with takes at any points and one at the end, arrives exactly if no take came when
      only the first byte of its magic had been fed. */
  lemma OneFrameExactly(m: Message, es: seq<Event>)
    requires Fits(m) && FedBytes(es) == Frame(m)
    ensures Run([], es + [Taken]).1 == [m] <==> !TookOne(es)
  {
    var all := es + [Taken];
    assert all[..|es|] == es && FedBytes(all) == FedBytes(es) + [] == Frame(m);
    TookOneMore(es, Taken);
    StreamOne(m);
    if TookOne(es) {
      assert FedBytes(all) + [] == Frame(m);
      TookOneAlone(m, all, []);
      var a := BehindForGood([m], all, []);
    } else {
      NotTookOneSplitsNone(m, all);
      AllTaken(m, es);
    }
  }

  lemma AllTaken(m: Message, es: seq<Event>)
    requires Fits(m) && FedBytes(es) == Stream([m]) && !TookOne(es)
    ensures Run([], es + [Taken]).1 == [m]
  {
    assert (es + [Taken])[..|es|] == es;
    assert FedBytes(es) + [] == Stream([m]);
    NotTookOneSplitsNone(m, es);
    SplitsNoneNeverAlone([m], es, []);
    var k := RunInStep([m], es, []);
    var (b, out) := Run([], es);
    WholeNotSplit([m]);
    if b == [MAGIC[0]] {
      AloneIsSplit([m], k, b, out, [], FedBytes(es));
    }
    TakeInStep([m], k, b, out, []);
    assert [m][..1] == [m];
  }
}
