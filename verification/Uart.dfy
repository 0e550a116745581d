/** USART1's receive ring. */
module Uart {
  import opened Bits
  import opened Wrappers

  const SLOTS: nat := 256

  /** The ring slot i places after t. */
  function Slot(t: nat, i: nat): (k: nat)
    requires t < SLOTS && i <= SLOTS
    ensures k < SLOTS && k == (t + i) % SLOTS
  {
    if t + i < SLOTS then t + i else t + i - SLOTS
  }

  /** The n bytes from index t on, around the ring. */
  function Ring(fifo: seq<Byte>, t: nat, n: nat): (r: seq<Byte>)
    requires |fifo| == SLOTS && t < SLOTS && n <= SLOTS
    ensures |r| == n
  {
    seq(n, i requires 0 <= i < n => fifo[Slot(t, i)])
  }

  lemma RingPop(fifo: seq<Byte>, t: nat, n: nat)
    requires |fifo| == SLOTS && t < SLOTS && 0 < n <= SLOTS
    ensures Ring(fifo, t, n)[0] == fifo[t]
    ensures Ring(fifo, Slot(t, 1), n - 1) == Ring(fifo, t, n)[1..]
  {
    forall i | 0 <= i < n - 1
      ensures Slot(Slot(t, 1), i) == Slot(t, i + 1)
    {
    }
  }

  lemma RingPush(fifo: seq<Byte>, t: nat, n: nat, b: Byte)
    requires |fifo| == SLOTS && t < SLOTS && n < SLOTS
    ensures Ring(fifo[Slot(t, n) := b], t, n + 1) == Ring(fifo, t, n) + [b]
  {
    forall i | 0 <= i < n
      ensures Slot(t, i) != Slot(t, n)
    {
    }
  }

  /** Unsigned subtraction of the indices, reduced to the ring. */
  function Used(head: nat, tail: nat): (n: nat)
    requires head < SLOTS && tail < SLOTS
    ensures n < SLOTS && Slot(tail, n) == head && (n == 0 <==> head == tail)
  {
    (head + WORD32 - tail) % WORD32 % SLOTS
  }

  lemma UsedSteps(head: nat, tail: nat)
    requires head < SLOTS && tail < SLOTS
    ensures head != tail ==> Used(head, Slot(tail, 1)) == Used(head, tail) - 1
    ensures Slot(head, 1) == tail <==> Used(head, tail) == SLOTS - 1
    ensures Slot(head, 1) != tail ==> Used(Slot(head, 1), tail) == Used(head, tail) + 1
  {
    UsedIs(head, tail);
    UsedIs(head, Slot(tail, 1));
    UsedIs(Slot(head, 1), tail);
  }

  lemma UsedIs(head: nat, tail: nat)
    requires head < SLOTS && tail < SLOTS
    ensures Used(head, tail) == if head >= tail then head - tail else head + SLOTS - tail
  {
  }

  class Usart {
    const fifo: array<Byte>
    var head: nat
    var tail: nat

    ghost predicate Valid()
      reads this
    {
      fifo.Length == SLOTS && head < SLOTS && tail < SLOTS
    }

    /** The queued bytes, oldest first. */
    ghost function Queue(): (q: seq<Byte>)
      requires Valid()
      reads this, fifo
      ensures |q| < SLOTS
    {
      Ring(fifo[..], tail, Used(head, tail))
    }

    constructor ()
      ensures Valid() && fresh(fifo) && Queue() == []
    {
      fifo := new Byte[SLOTS](i => 0);
      head, tail := 0, 0;
    }

    method IsEmpty() returns (e: bool)
      requires Valid()
      ensures e == (Queue() == [])
    {
      e := head == tail;
    }

    /** Pull one received byte, if there is one. */
    method Pop() returns (b: Option<Byte>)
      requires Valid()
      modifies `tail
      ensures Valid()
      ensures old(Queue()) == [] ==> b == None && Queue() == []
      ensures old(Queue()) != [] ==> b == Some(old(Queue())[0]) && Queue() == old(Queue())[1..]
    {
      if head == tail {
        return None;
      }
      RingPop(fifo[..], tail, Used(head, tail));
      UsedSteps(head, tail);
      b := Some(fifo[tail]);
      tail := (tail + 1) % SLOTS;
    }

    method CanReceive() returns (n: nat)
      requires Valid()
      ensures n == SLOTS - 1 - |Queue()|
    {
      var used := (head + WORD32 - tail) % WORD32 % SLOTS;
      n := SLOTS - 1 - used;
    }

    /** One byte, if the ring has room for it. */
    method Put(b: Byte) returns (done: bool)
      requires Valid()
      modifies this, fifo
      ensures Valid() && done == (|old(Queue())| < SLOTS - 1)
      ensures Queue() == old(Queue()) + if done then [b] else []
    {
      UsedSteps(head, tail);
      var next := (head + 1) % SLOTS;
      if next == tail {
        return false;
      }
      RingPush(fifo[..], tail, Used(head, tail), b);
      fifo[head] := b;
      head := next;
      done := true;
    }

    /** Bytes from the host: as many as fit are queued in order, the rest are dropped. */
    method Receive(buf: seq<Byte>)
      requires Valid()
      modifies this, fifo
      ensures Valid()
      ensures var room := SLOTS - 1 - |old(Queue())|;
              Queue() == old(Queue()) + buf[..if |buf| <= room then |buf| else room]
    {
      ghost var q := Queue();
      for i := 0 to |buf|
        invariant Valid() && i <= SLOTS - 1 - |q| && Queue() == q + buf[..i]
      {
        var done := Put(buf[i]);
        if !done {
          break;
        }
        assert buf[..i + 1] == buf[..i] + [buf[i]];
      }
    }
  }
}
