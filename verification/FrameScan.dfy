/** What a take finds in any bytes whatever: which frame, and what is passed over before it. */
module FrameScan {
  import opened Bits
  import opened Wrappers
  import opened Frames

  /** AB CD */
  predicate Begins(buf: Bytes, p: nat) { p + 2 <= |buf| && buf[p] == 0xab && buf[p + 1] == 0xcd }

  /** The first AB CD at or after q. */
  ghost predicate FirstAt(buf: Bytes, q: nat, p: nat)
  {
    q <= p && Begins(buf, p) && forall j :: q <= j < p ==> !Begins(buf, j)
  }

  ghost predicate NoneFrom(buf: Bytes, q: nat) { forall j :: q <= j ==> !Begins(buf, j) }

  /** The length of the message that starts at p, as its frame announces it. */
  function Length(buf: Bytes, p: nat): nat
    requires p + 4 <= |buf|
  {
    buf[p + 3] as nat * 256 + buf[p + 2]
  }

  /** The whole frame is there: four bytes before the message, two of CRC, two of footer. */
  predicate AllThere(buf: Bytes, p: nat) { p + 8 <= |buf| && p + 8 + Length(buf, p) <= |buf| }

  /** It ends with DC BA. */
  predicate Footed(buf: Bytes, p: nat)
    requires AllThere(buf, p)
  {
    var end := p + 6 + Length(buf, p);
    buf[end] == 0xdc && buf[end + 1] == 0xba
  }

  /** The message of a frame: kind and size in clear, and as much data as there is. */
  predicate Holds(buf: Bytes, p: nat, m: Message)
    requires AllThere(buf, p) && Length(buf, p) >= 2
  {
    var body := Obfuscate(buf[p + 4..p + 6 + Length(buf, p)]);
    var end := 4 + (body[3] as nat * 256 + body[2]);
    && m.kind == body[1] as nat * 256 + body[0]
    && m.data == body[4..if end < |body| then end else |body|]
  }

  /** One turn of the search, from q on: a frame without its footer, of which only the AB CD is passed over, or a
      frame too short to hold a message. */
  ghost predicate PassedOver(buf: Bytes, q: nat, next: nat)
  {
    exists p: nat :: FirstAt(buf, q, p) && AllThere(buf, p) &&
      if !Footed(buf, p) then next == p + 2 else Length(buf, p) < 2 && next == p + 8 + Length(buf, p)
  }

  /** The places the search went on from, each passed over to the next. */
  ghost predicate Path(buf: Bytes, qs: seq<nat>)
  {
    |qs| > 0 && qs[0] == 0 && forall i, j :: 0 <= i < |qs| - 1 && j == i + 1 ==> PassedOver(buf, qs[i], qs[j])
  }

  /** The frame at p ends the search: it waits for more, or is a message, and what follows is kept. */
  ghost predicate EndsAt(buf: Bytes, p: nat, r: (Bytes, Option<Message>))
  {
    if !AllThere(buf, p) then p <= |buf| && r == (buf[p..], None)
    else
      && Footed(buf, p) && Length(buf, p) >= 2 && r.1.Some? && Holds(buf, p, r.1.value)
      && r.0 == buf[p + 8 + Length(buf, p)..]
  }

  /** How a search from q on ends: no frame begins and all is dropped, or the first that does ends it. */
  ghost predicate Ends(buf: Bytes, q: nat, r: (Bytes, Option<Message>))
  {
    || (NoneFrom(buf, q) && r == ([], None))
    || exists p: nat :: FirstAt(buf, q, p) && EndsAt(buf, p, r)
  }

  lemma MagicIs(buf: Bytes, p: nat)
    ensures MagicAt(buf, p) <==> Begins(buf, p)
  {
    if p + 2 <= |buf| {
      var two := buf[p..p + 2];
      assert two[0] == buf[p] && two[1] == buf[p + 1];
      assert Begins(buf, p) ==> two == MAGIC;
    }
  }

  lemma MagicFrom(buf: Bytes, q: nat, left: Bytes, j: nat)
    requires q <= |buf| && left == buf[q..]
    ensures MagicAt(left, j) <==> Begins(buf, q + j)
  {
    MagicIs(left, j);
  }

  lemma FindIs(buf: Bytes, q: nat, left: Bytes)
    requires q <= |buf| && left == buf[q..]
    ensures var start := Find(left, 0);
            if start < 0 then NoneFrom(buf, q) else FirstAt(buf, q, q + start)
  {
    var start := Find(left, 0);
    forall j | q <= j && (start < 0 || j < q + start)
      ensures !Begins(buf, j)
    {
      MagicFrom(buf, q, left, j - q);
    }
    if start >= 0 {
      MagicFrom(buf, q, left, start);
    }
  }

  lemma NumberIs(t: Bytes)
    requires |t| == 2
    ensures UnLe16(t) == t[1] as nat * 256 + t[0]
  {
  }

  /** What the bytes from p on amount to. */
  lemma FrontIs(buf: Bytes, p: nat)
    requires p <= |buf|
    ensures match Front(buf[p..])
            case Keep => !AllThere(buf, p)
            case Drop(n) =>
              AllThere(buf, p) &&
              if !Footed(buf, p) then n == 2 else Length(buf, p) < 2 && n == 8 + Length(buf, p)
            case Got(n, m) =>
              && AllThere(buf, p) && Footed(buf, p) && Length(buf, p) >= 2 && n == 8 + Length(buf, p)
              && Holds(buf, p, m)
  {
    var t := buf[p..];
    if |t| >= 8 {
      assert t[2..4] == [t[2], t[3]];
      NumberIs(t[2..4]);
      var end := 6 + Length(buf, p);
      assert end == 6 + UnLe16(t[2..4]);
      if |t| >= end + 2 {
        FooterIs(buf, p, t, end);
        BodyIs(buf, p, t, end);
      }
    }
  }

  lemma FooterIs(buf: Bytes, p: nat, t: Bytes, end: nat)
    requires p <= |buf| && t == buf[p..] && end + 2 <= |t|
    ensures t[end..end + 2] == END <==> buf[p + end] == 0xdc && buf[p + end + 1] == 0xba
  {
    var two := t[end..end + 2];
    assert two[0] == buf[p + end] && two[1] == buf[p + end + 1];
    assert two[0] == 0xdc && two[1] == 0xba ==> two == END;
  }

  lemma BodyIs(buf: Bytes, p: nat, t: Bytes, end: nat)
    requires p <= |buf| && t == buf[p..] && 4 <= end <= |t|
    ensures t[4..end] == buf[p + 4..p + end] && |Obfuscate(t[4..end])| == end - 4
    ensures var body := Obfuscate(t[4..end]);
            end >= 8 ==>
              && UnLe16(body[..2]) == body[1] as nat * 256 + body[0]
              && UnLe16(body[2..4]) == body[3] as nat * 256 + body[2]
  {
    var body := Obfuscate(t[4..end]);
    if end >= 8 {
      assert body[..2] == [body[0], body[1]] && body[2..4] == [body[2], body[3]];
      NumberIs(body[..2]);
      NumberIs(body[2..4]);
    }
  }

  lemma EndsThere(buf: Bytes, q: nat, p: nat, r: (Bytes, Option<Message>))
    requires FirstAt(buf, q, p) && EndsAt(buf, p, r)
    ensures Ends(buf, q, r)
  {
  }

  lemma TakeFrom(buf: Bytes, q: nat, left: Bytes, p: nat, start: nat)
    requires q <= |buf| && left == buf[q..] && Find(left, 0) == start && p == q + start
    ensures p <= |buf| && left[start..] == buf[p..]
    ensures match Front(buf[p..])
            case Keep => Dropped(left) == 0 && EndsAt(buf, p, Take(left))
            case Drop(n) => n > 0 && Dropped(left) == start + n
            case Got(n, m) => Dropped(left) == 0 && EndsAt(buf, p, Take(left))
  {
    assert left[start..] == buf[p..];
    FrontIs(buf, p);
    match Front(buf[p..])
    case Keep =>
    case Drop(n) =>
    case Got(n, m) => assert buf[p..][n..] == buf[p + n..];
  }

  lemma OneTurn(buf: Bytes, q: nat, left: Bytes)
    requires q <= |buf| && left == buf[q..]
    ensures Dropped(left) > 0 ==> PassedOver(buf, q, q + Dropped(left))
    ensures Dropped(left) == 0 ==> Ends(buf, q, Take(left))
  {
    var start := Find(left, 0);
    FindIs(buf, q, left);
    if start >= 0 {
      var p := q + start;
      TakeFrom(buf, q, left, p, start);
      if Dropped(left) > 0 {
        FrontIs(buf, p);
        assert FirstAt(buf, q, p);
      } else {
        EndsThere(buf, q, p, Take(left));
      }
    }
  }

  lemma PathMore(buf: Bytes, qs: seq<nat>, next: nat)
    requires Path(buf, qs) && PassedOver(buf, qs[|qs| - 1], next)
    ensures Path(buf, qs + [next])
  {
  }

  /** A take on any buffer: it passes over what is no message, place by place, and ends in one of the three ways. */
  lemma TakeExactly(buf: Bytes) returns (qs: seq<nat>)
    ensures Path(buf, qs) && Ends(buf, qs[|qs| - 1], Take(buf))
  {
    qs := [0];
    var left := buf;
    while Dropped(left) > 0
      invariant Path(buf, qs) && qs[|qs| - 1] <= |buf| && left == buf[qs[|qs| - 1]..] && Take(buf) == Take(left)
      decreases |left|
    {
      var q, k := qs[|qs| - 1], Dropped(left);
      OneTurn(buf, q, left);
      DroppedTake(left);
      assert left[k..] == buf[q + k..];
      PathMore(buf, qs, q + k);
      qs, left := qs + [q + k], left[k..];
    }
    OneTurn(buf, qs[|qs| - 1], left);
  }
}
