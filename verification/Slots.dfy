/** Firmware slots in the external flash image: their header, writing, erasing, reading back. */
module Slots {
  import opened Bits
  import opened Bytearray
  import opened Wrappers

  const SLOT_MAGIC: nat := 0x31424d46
  const HDR_VERSION: nat := 1
  const BACKUP_BASE: nat := 0x02_0000
  const STRIDE: nat := 0x2_0000
  const IMAGE_OFFSET: nat := 0x1000
  const SLOT_COUNT: nat := 5
  const HEADER_SIZE: nat := 64
  const STATE_A: nat := 0x10_0000
  const STATE_B: nat := 0x10_1000
  const STATE_SIZE: nat := 24
  const ROOM: nat := STRIDE - IMAGE_OFFSET

  datatype Error = BadSlot | ImageTooLong | ShortBuffer

  /** The CRC-32 of section 8 of RFC 1952, uninterpreted. */
  type Crc32 = f: Bytes -> nat | forall b :: f(b) < WORD32 witness b => 0

  function SlotBase(slot: int): Result<nat, Error>
  {
    if slot == 0 then Ok(BACKUP_BASE)
    else if 1 <= slot < SLOT_COUNT then Ok(BACKUP_BASE + slot * 0x2_0000)
    else Err(BadSlot)
  }

  /** Text to ASCII bytes, a question mark for anything else. */
  function Ascii(s: string): (r: Bytes)
    ensures |r| == |s|
  {
    seq(|s|, i requires 0 <= i < |s| => if s[i] as nat < 128 then s[i] as nat else 63)
  }

  function Cut15(s: string): Bytes
  {
    if |s| > 15 then Ascii(s)[..15] else Ascii(s)
  }

  function HeaderHead(): (r: Bytes)
    ensures |r| == 8
  {
    Le(SLOT_MAGIC, 4) + Le(HDR_VERSION, 2) + Le(1, 2)
  }

  function HeaderSizes(size: nat, crc: nat): (r: Bytes)
    ensures |r| == 8
  {
    Le(size, 4) + Le(crc, 4) + []
  }

  function HeaderText(name: string, version: string): (r: Bytes)
    ensures |r| == 48
  {
    Padded(Cut15(name), 16) + Padded(Cut15(version), 16) + seq(16, i => 0)
  }

  function BuildHeader(crc32: Crc32, image: Bytes, name: string, version: string): (r: Result<Bytes, Error>)
    ensures r.Ok? ==> |r.value| == HEADER_SIZE
  {
    if |image| > ROOM then Err(ImageTooLong)
    else Ok(HeaderHead() + HeaderSizes(|image|, crc32(image)) + HeaderText(name, version))
  }

  /** A header at base and an image one sector further on. */
  function Place(buf: Bytes, base: nat, header: Bytes, image: Bytes): Bytes
    requires |header| == HEADER_SIZE
  {
    var start := base + IMAGE_OFFSET;
    Splice(Splice(buf, base, base + HEADER_SIZE, header), start, start + |image|, image)
  }

  function WriteSlot(crc32: Crc32, buf: Bytes, slot: int, image: Bytes, name: string,
                     version: string): Result<Bytes, Error>
  {
    var base :- SlotBase(slot);
    var header :- BuildHeader(crc32, image, name, version);
    Ok(Place(buf, base, header, image))
  }

  function Erased(n: nat): (r: Bytes)
    ensures |r| == n
  {
    seq(n, i => 0xff)
  }

  function EraseSlot(buf: Bytes, slot: int): Result<Bytes, Error>
  {
    var base :- SlotBase(slot);
    Ok(Splice(buf, base, base + STRIDE, Erased(STRIDE)))
  }

  function EraseState(buf: Bytes): Bytes
  {
    Splice(Splice(buf, STATE_A, STATE_A + STATE_SIZE, Erased(STATE_SIZE)),
           STATE_B, STATE_B + STATE_SIZE, Erased(STATE_SIZE))
  }

  datatype Header = Header(slot: int, base: nat, version: nat, flags: nat, size: nat, crc: nat, crcOk: bool,
                           name: Bytes, firmware: Bytes)

  /** From at on, n bytes or what there is of them. */
  function Slice(buf: Bytes, at: nat, n: nat): Bytes
  {
    var lo := if at <= |buf| then at else |buf|;
    var hi := if at + n <= |buf| then at + n else |buf|;
    buf[lo..hi]
  }

  /** A committed slot's header and image; None if it is not one. */
  function ReadSlot(crc32: Crc32, buf: Bytes, slot: int): Result<Option<(Header, Bytes)>, Error>
  {
    var base :- SlotBase(slot);
    if |buf| < base + 16 then Err(ShortBuffer)
    else
      var flags := UnLe(buf[base + 6..base + 8]);
      if UnLe(buf[base..base + 4]) != SLOT_MAGIC || flags % 2 == 0 then Ok(None)
      else
        var size, crc := UnLe(buf[base + 8..base + 12]), UnLe(buf[base + 12..base + 16]);
        var image := Slice(buf, base + IMAGE_OFFSET, size);
        Ok(Some((Header(slot, base, UnLe(buf[base + 4..base + 6]), flags, size, crc, crc32(image) == crc,
                        UpToNul(Slice(buf, base + 16, 16)), UpToNul(Slice(buf, base + 32, 16))), image)))
  }

  // ------------------------------------------------ the image object

  class FlashImage {
    var buf: Bytes
    const crc32: Crc32

    constructor (buf: Bytes, crc32: Crc32)
      ensures this.buf == buf && this.crc32 == crc32
    {
      this.buf := buf;
      this.crc32 := crc32;
    }

    method Write(slot: int, image: Bytes, name: string, version: string) returns (e: Option<Error>)
      modifies this
      ensures match WriteSlot(crc32, old(buf), slot, image, name, version)
              case Ok(b) => e == None && buf == b
              case Err(err) => e == Some(err) && buf == old(buf)
    {
      var base := SlotBase(slot);
      if base.Err? {
        return Some(base.error);
      }
      var header := BuildHeader(crc32, image, name, version);
      if header.Err? {
        return Some(header.error);
      }
      buf := Splice(buf, base.value, base.value + HEADER_SIZE, header.value);
      var start := base.value + IMAGE_OFFSET;
      buf := Splice(buf, start, start + |image|, image);
      e := None;
    }

    method Erase(slot: int) returns (e: Option<Error>)
      modifies this
      ensures match EraseSlot(old(buf), slot)
              case Ok(b) => e == None && buf == b
              case Err(err) => e == Some(err) && buf == old(buf)
    {
      var base := SlotBase(slot);
      if base.Err? {
        return Some(base.error);
      }
      buf := Splice(buf, base.value, base.value + STRIDE, Erased(STRIDE));
      e := None;
    }

    method EraseMarkers()
      modifies this
      ensures buf == EraseState(old(buf))
    {
      buf := Splice(buf, STATE_A, STATE_A + STATE_SIZE, Erased(STATE_SIZE));
      buf := Splice(buf, STATE_B, STATE_B + STATE_SIZE, Erased(STATE_SIZE));
    }
  }

  // ------------------------------------------------ every operation is a list of edits

  datatype Op = Write(slot: int, image: Bytes, name: string, firmware: string) | Erase(slot: int) | EraseMarkers

  function Perform(crc32: Crc32, buf: Bytes, op: Op): Result<Bytes, Error>
  {
    match op
    case Write(slot, image, name, firmware) => WriteSlot(crc32, buf, slot, image, name, firmware)
    case Erase(slot) => EraseSlot(buf, slot)
    case EraseMarkers => Ok(EraseState(buf))
  }

  /** The operations that are not refused. */
  predicate Accepted(op: Op)
  {
    match op
    case Write(slot, image, _, _) => 0 <= slot < SLOT_COUNT && |image| <= ROOM
    case Erase(slot) => 0 <= slot < SLOT_COUNT
    case EraseMarkers => true
  }

  lemma RefusedExactly(crc32: Crc32, buf: Bytes, op: Op)
    ensures Perform(crc32, buf, op).Ok? <==> Accepted(op)
  {
  }

  function Lo(op: Op): nat
    requires Accepted(op)
  {
    if op.EraseMarkers? then STATE_A else SlotBase(op.slot).value
  }

  function Hi(op: Op): nat
    requires Accepted(op)
  {
    if op.EraseMarkers? then STATE_B + STATE_SIZE else SlotBase(op.slot).value + STRIDE
  }

  lemma PlaceIsEdits(buf: Bytes, base: nat, header: Bytes, image: Bytes, es: seq<Edit>)
    requires base + STRIDE <= |buf| && |image| <= ROOM && |header| == HEADER_SIZE
    requires es == TwoEdits(base, header, base + IMAGE_OFFSET, image)
    ensures Fit(es, |buf|) && Place(buf, base, header, image) == Apply(buf, es)
  {
    var mid := Splice(buf, base, base + HEADER_SIZE, header);
    TwoSplices(buf, base, header, base + IMAGE_OFFSET, image, mid);
  }

  lemma EraseIsEdits(buf: Bytes, slot: int, base: nat, blank: Bytes, es: seq<Edit>)
    requires SlotBase(slot) == Ok(base) && base + STRIDE <= |buf| && blank == Erased(STRIDE) &&
             es == OneEdit(base, blank)
    ensures Fit(es, |buf|) && EraseSlot(buf, slot) == Ok(Apply(buf, es))
  {
    var r := Splice(buf, base, base + STRIDE, blank);
    assert EraseSlot(buf, slot) == Ok(r);
    OneSplice(buf, base, blank);
  }

  lemma EraseStateIsEdits(buf: Bytes, blank: Bytes, es: seq<Edit>)
    requires STATE_B + STATE_SIZE <= |buf| && blank == Erased(STATE_SIZE)
    requires es == TwoEdits(STATE_A, blank, STATE_B, blank)
    ensures Fit(es, |buf|) && EraseState(buf) == Apply(buf, es)
  {
    var mid := Splice(buf, STATE_A, STATE_A + STATE_SIZE, blank);
    TwoSplices(buf, STATE_A, blank, STATE_B, blank, mid);
  }

  function EditsOf(crc32: Crc32, op: Op): seq<Edit>
    requires Accepted(op)
  {
    match op
    case Write(_, image, name, firmware) =>
      TwoEdits(Lo(op), BuildHeader(crc32, image, name, firmware).value, Lo(op) + IMAGE_OFFSET, image)
    case Erase(slot) => OneEdit(Lo(op), Erased(STRIDE))
    case EraseMarkers => TwoEdits(STATE_A, Erased(STATE_SIZE), STATE_B, Erased(STATE_SIZE))
  }

  lemma PerformIsEdits(crc32: Crc32, buf: Bytes, op: Op, es: seq<Edit>)
    requires Accepted(op) && Hi(op) <= |buf| && es == EditsOf(crc32, op)
    ensures Fit(es, |buf|) && Perform(crc32, buf, op) == Ok(Apply(buf, es))
  {
    match op
    case Write(slot, image, name, firmware) =>
      PlaceIsEdits(buf, Lo(op), BuildHeader(crc32, image, name, firmware).value, image, es);
    case Erase(slot) => EraseIsEdits(buf, slot, Lo(op), Erased(STRIDE), es);
    case EraseMarkers => EraseStateIsEdits(buf, Erased(STATE_SIZE), es);
  }

  lemma EditsInWindow(crc32: Crc32, op: Op, es: seq<Edit>)
    requires Accepted(op) && es == EditsOf(crc32, op)
    ensures Inside(es, Lo(op), Hi(op))
  {
  }

  /** Two accepted operations whose windows are disjoint commute on any image holding both windows. */
  lemma OperationsCommute(crc32: Crc32, buf: Bytes, p: Op, q: Op, afterP: Bytes, afterQ: Bytes)
    requires Accepted(p) && Accepted(q) && Hi(p) <= |buf| && Hi(q) <= |buf|
    requires Hi(p) <= Lo(q) || Hi(q) <= Lo(p)
    requires Perform(crc32, buf, p) == Ok(afterP) && Perform(crc32, buf, q) == Ok(afterQ)
    ensures Perform(crc32, afterP, q) == Perform(crc32, afterQ, p)
  {
    var ps, qs := EditsOf(crc32, p), EditsOf(crc32, q);
    PerformIsEdits(crc32, buf, p, ps);
    PerformIsEdits(crc32, buf, q, qs);
    PerformIsEdits(crc32, afterP, q, qs);
    PerformIsEdits(crc32, afterQ, p, ps);
    EditsInWindow(crc32, p, ps);
    EditsInWindow(crc32, q, qs);
    EditsCommute(buf, ps, Lo(p), Hi(p), qs, Lo(q), Hi(q));
  }

  /** Windows of different slots are disjoint, and the state markers lie past the last slot. */
  lemma WindowsDisjoint(p: Op, q: Op)
    requires Accepted(p) && Accepted(q)
    ensures Hi(p) <= Lo(q) || Hi(q) <= Lo(p) <==>
            if p.EraseMarkers? || q.EraseMarkers? then p.EraseMarkers? != q.EraseMarkers? else p.slot != q.slot
  {
  }

  /** An operation keeps the image's length and every byte outside its window. */
  lemma OnlyItsWindow(crc32: Crc32, buf: Bytes, op: Op, r: Bytes, i: nat)
    requires Accepted(op) && Hi(op) <= |buf| && Perform(crc32, buf, op) == Ok(r)
    ensures |r| == |buf|
    ensures i < |buf| && !(Lo(op) <= i < Hi(op)) ==> r[i] == buf[i]
  {
    var es := EditsOf(crc32, op);
    PerformIsEdits(crc32, buf, op, es);
    EditsInWindow(crc32, op, es);
    if i < |buf| && !(Lo(op) <= i < Hi(op)) {
      ApplyOutside(buf, es, Lo(op), Hi(op), i);
    }
  }

  // ------------------------------------------------ reading back

  lemma HeaderParts(h: Bytes, head: Bytes, sizes: Bytes, text: Bytes)
    requires h == head + sizes + text && |head| == 8 && |sizes| == 8 && |text| == 48
    ensures h[0..4] == head[0..4] && h[4..6] == head[4..6] && h[6..8] == head[6..8]
    ensures h[8..12] == sizes[0..4] && h[12..16] == sizes[4..8]
    ensures h[16..32] == text[0..16] && h[32..48] == text[16..32]
  {
    Three(h, head, sizes, text);
    SubSlice(h, 0, head, 0, 4);
    SubSlice(h, 0, head, 4, 6);
    SubSlice(h, 0, head, 6, 8);
    SubSlice(h, 8, sizes, 0, 4);
    SubSlice(h, 8, sizes, 4, 8);
    SubSlice(h, 16, text, 0, 16);
    SubSlice(h, 16, text, 16, 32);
  }

  lemma HeadFields(head: Bytes)
    requires head == HeaderHead()
    ensures head[0..4] == Le(SLOT_MAGIC, 4) && head[4..6] == Le(HDR_VERSION, 2) && head[6..8] == Le(1, 2)
  {
    Three(head, Le(SLOT_MAGIC, 4), Le(HDR_VERSION, 2), Le(1, 2));
  }

  lemma SizeFields(sizes: Bytes, size: nat, crc: nat)
    requires sizes == HeaderSizes(size, crc)
    ensures sizes[0..4] == Le(size, 4) && sizes[4..8] == Le(crc, 4)
  {
    Three(sizes, Le(size, 4), Le(crc, 4), []);
  }

  lemma TextFields(text: Bytes, name: string, version: string)
    requires text == HeaderText(name, version)
    ensures text[0..16] == Padded(Cut15(name), 16) && text[16..32] == Padded(Cut15(version), 16)
  {
    Three(text, Padded(Cut15(name), 16), Padded(Cut15(version), 16), seq(16, i => 0));
  }

  lemma PlaceHolds(buf: Bytes, base: nat, header: Bytes, image: Bytes, r: Bytes, a: nat, b: nat)
    requires base + STRIDE <= |buf| && |image| <= ROOM && |header| == HEADER_SIZE
    requires r == Place(buf, base, header, image) && a <= b <= HEADER_SIZE
    ensures |r| == |buf| && r[base + a..base + b] == header[a..b]
    ensures Slice(r, base + IMAGE_OFFSET, |image|) == image
  {
    var mid := Splice(buf, base, base + HEADER_SIZE, header);
    SpliceFits(buf, base, header);
    SpliceFits(mid, base + IMAGE_OFFSET, image);
  }

  /** The numbers a built header holds. */
  lemma HeaderNumbers(head: Bytes, sizes: Bytes, size: nat, crc: nat)
    requires head == HeaderHead() && sizes == HeaderSizes(size, crc) && size < WORD32 && crc < WORD32
    ensures UnLe(head[0..4]) == SLOT_MAGIC && UnLe(head[4..6]) == HDR_VERSION && UnLe(head[6..8]) == 1
    ensures UnLe(sizes[0..4]) == size && UnLe(sizes[4..8]) == crc
  {
    FieldWidths();
    HeadFields(head);
    SizeFields(sizes, size, crc);
    LeRoundTrip(SLOT_MAGIC, 4);
    LeRoundTrip(HDR_VERSION, 2);
    LeRoundTrip(1, 2);
    LeRoundTrip(size, 4);
    LeRoundTrip(crc, 4);
  }

  lemma Cut15IsShort(s: string)
    ensures |Cut15(s)| < 16
  {
  }

  /** The text a built header holds: the name up to its first NUL, cut to fifteen characters. */
  lemma HeaderNames(text: Bytes, name: string, version: string)
    requires text == HeaderText(name, version)
    ensures UpToNul(text[0..16]) == UpToNul(Cut15(name)) && UpToNul(text[16..32]) == UpToNul(Cut15(version))
  {
    TextFields(text, name, version);
    Cut15IsShort(name);
    Cut15IsShort(version);
    UpToNulPadded(Cut15(name), 16);
    UpToNulPadded(Cut15(version), 16);
  }

  lemma ReadPlaced(crc32: Crc32, r: Bytes, slot: int, base: nat, header: Bytes, image: Bytes)
    requires SlotBase(slot) == Ok(base) && base + STRIDE <= |r| && |header| == HEADER_SIZE
    requires r[base..base + HEADER_SIZE] == header && Slice(r, base + IMAGE_OFFSET, |image|) == image
    requires UnLe(header[0..4]) == SLOT_MAGIC && UnLe(header[4..6]) == HDR_VERSION && UnLe(header[6..8]) == 1
    requires UnLe(header[8..12]) == |image|
    ensures ReadSlot(crc32, r, slot) ==
            Ok(Some((Header(slot, base, HDR_VERSION, 1, |image|, UnLe(header[12..16]),
                            crc32(image) == UnLe(header[12..16]), UpToNul(header[16..32]), UpToNul(header[32..48])),
                     image)))
  {
    SubSlice(r, base, header, 0, 4);
    SubSlice(r, base, header, 4, 6);
    SubSlice(r, base, header, 6, 8);
    SubSlice(r, base, header, 8, 12);
    SubSlice(r, base, header, 12, 16);
    SubSlice(r, base, header, 16, 32);
    SubSlice(r, base, header, 32, 48);
  }

  lemma ReadHeader(crc32: Crc32, r: Bytes, slot: int, base: nat, h: Bytes, image: Bytes, name: string, version: string,
                   head: Bytes, sizes: Bytes, text: Bytes)
    requires SlotBase(slot) == Ok(base) && base + STRIDE <= |r| && |image| <= ROOM
    requires h == head + sizes + text && head == HeaderHead() && text == HeaderText(name, version)
    requires sizes == HeaderSizes(|image|, crc32(image))
    requires r[base..base + HEADER_SIZE] == h && Slice(r, base + IMAGE_OFFSET, |image|) == image
    ensures ReadSlot(crc32, r, slot) ==
            Ok(Some((Header(slot, base, HDR_VERSION, 1, |image|, crc32(image), true,
                            UpToNul(Cut15(name)), UpToNul(Cut15(version))), image)))
  {
    HeaderParts(h, head, sizes, text);
    HeaderNumbers(head, sizes, |image|, crc32(image));
    HeaderNames(text, name, version);
    ReadPlaced(crc32, r, slot, base, h, image);
  }

  /** A written slot reads back committed, with its own image, a matching CRC, and the names as written up
      to fifteen characters or the first NUL. */
  lemma WrittenReadsBack(crc32: Crc32, buf: Bytes, slot: int, base: nat, image: Bytes, name: string, version: string,
                         r: Bytes)
    requires SlotBase(slot) == Ok(base) && base + STRIDE <= |buf|
    requires WriteSlot(crc32, buf, slot, image, name, version) == Ok(r)
    ensures ReadSlot(crc32, r, slot) ==
            Ok(Some((Header(slot, base, HDR_VERSION, 1, |image|, crc32(image), true,
                            UpToNul(Cut15(name)), UpToNul(Cut15(version))), image)))
  {
    var h := BuildHeader(crc32, image, name, version).value;
    var head, sizes, text := HeaderHead(), HeaderSizes(|image|, crc32(image)), HeaderText(name, version);
    PlaceHolds(buf, base, h, image, r, 0, HEADER_SIZE);
    ReadHeader(crc32, r, slot, base, h, image, name, version, head, sizes, text);
  }

  lemma SameSlice(buf: Bytes, other: Bytes, lo: nat, hi: nat, at: nat, n: nat)
    requires |buf| == |other| && lo <= at && at + n <= hi
    requires forall i :: lo <= i < hi && i < |buf| ==> buf[i] == other[i]
    ensures Slice(buf, at, n) == Slice(other, at, n)
    ensures at + n <= |buf| ==> buf[at..at + n] == other[at..at + n]
  {
  }

  /** Where reading a slot stops: its header, and the image its size field names. */
  function ReadEnd(buf: Bytes, base: nat): nat
  {
    if |buf| < base + 16 then base else base + IMAGE_OFFSET + UnLe(buf[base + 8..base + 12])
  }

  /** Reading a slot looks at nothing before its base nor past the image its size field names. */
  lemma ReadIsLocal(crc32: Crc32, buf: Bytes, other: Bytes, slot: int, base: nat, end: nat)
    requires SlotBase(slot) == Ok(base) && |buf| == |other| && end == ReadEnd(buf, base)
    requires forall i :: base <= i < end && i < |buf| ==> buf[i] == other[i]
    ensures ReadSlot(crc32, buf, slot) == ReadSlot(crc32, other, slot)
  {
    if base + 16 <= |buf| {
      SameSlice(buf, other, base, end, base, 4);
      SameSlice(buf, other, base, end, base + 4, 2);
      SameSlice(buf, other, base, end, base + 6, 2);
      SameSlice(buf, other, base, end, base + 8, 4);
      SameSlice(buf, other, base, end, base + 12, 4);
      SameSlice(buf, other, base, end, base + 16, 16);
      SameSlice(buf, other, base, end, base + 32, 16);
      SameSlice(buf, other, base, end, base + IMAGE_OFFSET, UnLe(buf[base + 8..base + 12]));
    }
  }

  /** An operation changes what another slot holds only if that slot's size field makes its image run into
      the operation's window; in particular never if the size field fits the slot. */
  lemma OtherSlotUnchanged(crc32: Crc32, buf: Bytes, op: Op, r: Bytes, slot: int, base: nat)
    requires Accepted(op) && Hi(op) <= |buf| && Perform(crc32, buf, op) == Ok(r)
    requires SlotBase(slot) == Ok(base) && (op.EraseMarkers? || op.slot != slot)
    ensures ReadEnd(buf, base) <= Lo(op) || Hi(op) <= base ==> ReadSlot(crc32, r, slot) == ReadSlot(crc32, buf, slot)
    ensures ReadEnd(buf, base) <= base + STRIDE ==> ReadEnd(buf, base) <= Lo(op) || Hi(op) <= base
  {
    var end := ReadEnd(buf, base);
    OnlyItsWindow(crc32, buf, op, r, 0);
    if end <= Lo(op) || Hi(op) <= base {
      forall i | base <= i < end && i < |buf|
        ensures buf[i] == r[i]
      {
        OnlyItsWindow(crc32, buf, op, r, i);
      }
      ReadIsLocal(crc32, buf, r, slot, base, end);
    }
  }

  /** An erased slot reads as not committed. */
  lemma ErasedReadsEmpty(crc32: Crc32, buf: Bytes, slot: int, base: nat, r: Bytes)
    requires SlotBase(slot) == Ok(base) && base + STRIDE <= |buf| && EraseSlot(buf, slot) == Ok(r)
    ensures ReadSlot(crc32, r, slot) == Ok(None)
  {
    SpliceFits(buf, base, Erased(STRIDE));
    assert r[base..base + 4][0] == 0xff;
    FirstByteOf(r[base..base + 4]);
  }

  lemma FirstByteOf(magic: Bytes)
    requires |magic| == 4 && magic[0] == 0xff
    ensures UnLe(magic) != SLOT_MAGIC
  {
    assert UnLe(magic) % 256 == magic[0];
  }

  // ------------------------------------------------ exactly when other slots' operations show

  predicate Committed(buf: Bytes, base: nat)
  {
    |buf| >= base + 16 && UnLe(buf[base..base + 4]) == SLOT_MAGIC && UnLe(buf[base + 6..base + 8]) % 2 == 1
  }

  /** The bytes a committed slot's image is read from. */
  function ImageOf(buf: Bytes, base: nat): Bytes
    requires |buf| >= base + 16
  {
    Slice(buf, base + IMAGE_OFFSET, UnLe(buf[base + 8..base + 12]))
  }

  /** With the header sector left alone, what a slot holds changes exactly if it is committed and its image does. */
  lemma ReadChanges(crc32: Crc32, buf: Bytes, other: Bytes, slot: int, base: nat)
    requires SlotBase(slot) == Ok(base) && |buf| == |other| && base + IMAGE_OFFSET <= |buf|
    requires forall i :: base <= i < base + IMAGE_OFFSET ==> buf[i] == other[i]
    ensures Committed(other, base) <==> Committed(buf, base)
    ensures ReadSlot(crc32, other, slot) == ReadSlot(crc32, buf, slot) <==>
            !Committed(buf, base) || ImageOf(other, base) == ImageOf(buf, base)
  {
    var end := base + IMAGE_OFFSET;
    SameSlice(buf, other, base, end, base, 4);
    SameSlice(buf, other, base, end, base + 4, 2);
    SameSlice(buf, other, base, end, base + 6, 2);
    SameSlice(buf, other, base, end, base + 8, 4);
    SameSlice(buf, other, base, end, base + 12, 4);
    SameSlice(buf, other, base, end, base + 16, 16);
    SameSlice(buf, other, base, end, base + 32, 16);
  }

  lemma HeaderKept(crc32: Crc32, buf: Bytes, op: Op, r: Bytes, slot: int, base: nat)
    requires Accepted(op) && Hi(op) <= |buf| && Perform(crc32, buf, op) == Ok(r)
    requires SlotBase(slot) == Ok(base) && (op.EraseMarkers? || op.slot != slot) && base + STRIDE <= |buf|
    ensures |r| == |buf| && forall i :: base <= i < base + STRIDE ==> r[i] == buf[i]
  {
    OnlyItsWindow(crc32, buf, op, r, 0);
    forall i | base <= i < base + STRIDE
      ensures r[i] == buf[i]
    {
      OnlyItsWindow(crc32, buf, op, r, i);
    }
  }

  /** An operation on another window leaves what a slot holds alone exactly if the slot is not committed or none of
      the bytes its image is read from has changed. */
  lemma OtherSlotExactly(crc32: Crc32, buf: Bytes, op: Op, r: Bytes, slot: int, base: nat)
    requires Accepted(op) && Hi(op) <= |buf| && Perform(crc32, buf, op) == Ok(r)
    requires SlotBase(slot) == Ok(base) && (op.EraseMarkers? || op.slot != slot) && base + STRIDE <= |buf|
    ensures |r| == |buf| && (Committed(r, base) <==> Committed(buf, base))
    ensures ReadSlot(crc32, r, slot) == ReadSlot(crc32, buf, slot) <==>
            !Committed(buf, base) || ImageOf(r, base) == ImageOf(buf, base)
  {
    HeaderKept(crc32, buf, op, r, slot, base);
    ReadChanges(crc32, buf, r, slot, base);
  }

  /** The operation is refused, or on this slot, or outside the image, or leaves what the slot holds alone. */
  predicate Untouched(crc32: Crc32, buf: Bytes, slot: int, op: Op)
  {
    Accepted(op) && Hi(op) <= |buf| && (op.EraseMarkers? || op.slot != slot) ==>
      ReadSlot(crc32, Perform(crc32, buf, op).value, slot) == ReadSlot(crc32, buf, slot)
  }

  lemma FittingUntouched(crc32: Crc32, buf: Bytes, slot: int, base: nat, op: Op)
    requires SlotBase(slot) == Ok(base) && base + STRIDE <= |buf|
    requires !Committed(buf, base) || ReadEnd(buf, base) <= base + STRIDE
    ensures Untouched(crc32, buf, slot, op)
  {
    if Accepted(op) && Hi(op) <= |buf| && (op.EraseMarkers? || op.slot != slot) {
      RefusedExactly(crc32, buf, op);
      var r := Perform(crc32, buf, op).value;
      if Committed(buf, base) {
        OtherSlotUnchanged(crc32, buf, op, r, slot, base);
      } else {
        OtherSlotExactly(crc32, buf, op, r, slot, base);
      }
    }
  }

  /** The first byte of a slot after an erase, and after an empty image is written. */
  lemma FirstByteAfter(crc32: Crc32, buf: Bytes, slot: int, base: nat)
    requires SlotBase(slot) == Ok(base) && base + STRIDE <= |buf|
    ensures var r := Perform(crc32, buf, Erase(slot)).value; |r| == |buf| && r[base] == 0xff
    ensures var r := Perform(crc32, buf, Write(slot, [], "", "")).value; |r| == |buf| && r[base] == 0x46
  {
    SpliceFits(buf, base, Erased(STRIDE));
    var h := BuildHeader(crc32, [], "", "").value;
    var r := Perform(crc32, buf, Write(slot, [], "", "")).value;
    assert r == Place(buf, base, h, []);
    PlaceHolds(buf, base, h, [], r, 0, HEADER_SIZE);
    HeadStarts(h, HeaderHead(), HeaderSizes(0, crc32([])), HeaderText("", ""));
    assert r[base..base + HEADER_SIZE][0] == r[base];
  }

  lemma HeadStarts(h: Bytes, head: Bytes, sizes: Bytes, text: Bytes)
    requires h == head + sizes + text && head == HeaderHead()
    ensures h[0] == 0x46
  {
    assert h[0] == head[0] == Le(SLOT_MAGIC, 4)[0];
  }

  /** A committed slot whose size runs into the next slot sees an erase of it, or a write to it. */
  lemma OversizedTouched(crc32: Crc32, buf: Bytes, slot: int, base: nat)
    requires SlotBase(slot) == Ok(base) && slot + 1 < SLOT_COUNT && base + 2 * STRIDE <= |buf|
    requires Committed(buf, base) && base + STRIDE < ReadEnd(buf, base)
    ensures !Untouched(crc32, buf, slot, Erase(slot + 1)) || !Untouched(crc32, buf, slot, Write(slot + 1, [], "", ""))
  {
    FirstByteAfter(crc32, buf, slot + 1, base + STRIDE);
    if buf[base + STRIDE] == 0xff {
      SeesChange(crc32, buf, Write(slot + 1, [], "", ""), slot, base);
    } else {
      SeesChange(crc32, buf, Erase(slot + 1), slot, base);
    }
  }

  lemma SeesChange(crc32: Crc32, buf: Bytes, op: Op, slot: int, base: nat)
    requires SlotBase(slot) == Ok(base) && base + STRIDE < |buf|
    requires Committed(buf, base) && base + STRIDE < ReadEnd(buf, base)
    requires Accepted(op) && Hi(op) <= |buf| && (op.EraseMarkers? || op.slot != slot)
    requires Perform(crc32, buf, op).Ok?
    requires var r := Perform(crc32, buf, op).value; |r| == |buf| && r[base + STRIDE] != buf[base + STRIDE]
    ensures !Untouched(crc32, buf, slot, op)
  {
    var r := Perform(crc32, buf, op).value;
    OtherSlotExactly(crc32, buf, op, r, slot, base);
    HeaderKept(crc32, buf, op, r, slot, base);
    DifferentImages(buf, r, base);
  }

  lemma DifferentImages(buf: Bytes, r: Bytes, base: nat)
    requires |r| == |buf| && base + STRIDE < |buf| && base + STRIDE < ReadEnd(buf, base)
    requires forall i :: base <= i < base + STRIDE ==> r[i] == buf[i]
    requires r[base + STRIDE] != buf[base + STRIDE]
    ensures ImageOf(r, base) != ImageOf(buf, base)
  {
    SameSlice(buf, r, base, base + STRIDE, base + 8, 4);
    ImageByte(buf, base, STRIDE - IMAGE_OFFSET);
    ImageByte(r, base, STRIDE - IMAGE_OFFSET);
  }

  lemma ImageByte(buf: Bytes, base: nat, i: nat)
    requires |buf| >= base + 16 && i < UnLe(buf[base + 8..base + 12]) && base + IMAGE_OFFSET + i < |buf|
    ensures i < |ImageOf(buf, base)| && ImageOf(buf, base)[i] == buf[base + IMAGE_OFFSET + i]
  {
  }

  /** No operation elsewhere changes what a slot holds, exactly if the slot is not committed or its size field
      fits it. */
  lemma UntouchedExactly(crc32: Crc32, buf: Bytes, slot: int, base: nat)
    requires SlotBase(slot) == Ok(base) && slot + 1 < SLOT_COUNT && base + 2 * STRIDE <= |buf|
    ensures (forall op :: Untouched(crc32, buf, slot, op)) <==>
            !Committed(buf, base) || ReadEnd(buf, base) <= base + STRIDE
  {
    if !Committed(buf, base) || ReadEnd(buf, base) <= base + STRIDE {
      forall op
        ensures Untouched(crc32, buf, slot, op)
      {
        FittingUntouched(crc32, buf, slot, base, op);
      }
    } else {
      OversizedTouched(crc32, buf, slot, base);
    }
  }

  /** Behind the last slot come only the state markers: an operation elsewhere changes what it holds exactly if it
      is committed, its size runs over a marker, and a byte of that marker it reads is not erased already. */
  lemma LastSlotExactly(crc32: Crc32, buf: Bytes, slot: int, base: nat)
    requires SlotBase(slot) == Ok(base) && slot + 1 == SLOT_COUNT && STATE_B + STATE_SIZE <= |buf|
    ensures (forall op :: Untouched(crc32, buf, slot, op)) <==>
            !Committed(buf, base) || forall i: nat :: MarkerByte(i) && i < ReadEnd(buf, base) ==> buf[i] == 0xff
  {
    var r := EraseState(buf);
    assert Perform(crc32, buf, EraseMarkers) == Ok(r);
    OtherSlotExactly(crc32, buf, EraseMarkers, r, slot, base);
    HeaderKept(crc32, buf, EraseMarkers, r, slot, base);
    SameSlice(buf, r, base, base + IMAGE_OFFSET, base + 8, 4);
    EraseStateBytes(buf, r);
    if Committed(buf, base) {
      ImagesAgree(buf, r, base);
    }
    assert Untouched(crc32, buf, slot, EraseMarkers) <==> ReadSlot(crc32, r, slot) == ReadSlot(crc32, buf, slot);
    forall op: Op | !op.EraseMarkers?
      ensures Untouched(crc32, buf, slot, op)
    {
      EarlierUntouched(crc32, buf, slot, base, op);
    }
  }

  predicate MarkerByte(i: nat)
  {
    STATE_A <= i < STATE_A + STATE_SIZE || STATE_B <= i < STATE_B + STATE_SIZE
  }

  lemma EraseStateBytes(buf: Bytes, r: Bytes)
    requires STATE_B + STATE_SIZE <= |buf| && r == EraseState(buf)
    ensures |r| == |buf| && forall i :: 0 <= i < |buf| ==> r[i] == if MarkerByte(i) then 0xff else buf[i]
  {
    var mid := Splice(buf, STATE_A, STATE_A + STATE_SIZE, Erased(STATE_SIZE));
    SpliceFits(buf, STATE_A, Erased(STATE_SIZE));
    SpliceFits(mid, STATE_B, Erased(STATE_SIZE));
  }

  lemma ImagesAgree(buf: Bytes, r: Bytes, base: nat)
    requires |r| == |buf| && |buf| >= base + 16 && r[base + 8..base + 12] == buf[base + 8..base + 12]
    requires base + IMAGE_OFFSET <= STATE_A && STATE_B + STATE_SIZE <= |buf|
    requires forall i :: 0 <= i < |buf| ==> r[i] == if MarkerByte(i) then 0xff else buf[i]
    ensures ImageOf(r, base) == ImageOf(buf, base) <==>
            forall i: nat :: MarkerByte(i) && i < ReadEnd(buf, base) ==> buf[i] == 0xff
  {
    var size := UnLe(buf[base + 8..base + 12]);
    if ImageOf(r, base) == ImageOf(buf, base) {
      forall i: nat | MarkerByte(i) && i < ReadEnd(buf, base)
        ensures buf[i] == 0xff
      {
        ImageByte(buf, base, i - base - IMAGE_OFFSET);
        ImageByte(r, base, i - base - IMAGE_OFFSET);
      }
    }
  }

  lemma EarlierUntouched(crc32: Crc32, buf: Bytes, slot: int, base: nat, op: Op)
    requires SlotBase(slot) == Ok(base) && slot + 1 == SLOT_COUNT && base + STRIDE <= |buf| && !op.EraseMarkers?
    ensures Untouched(crc32, buf, slot, op)
  {
    if Accepted(op) && Hi(op) <= |buf| && op.slot != slot {
      RefusedExactly(crc32, buf, op);
      OtherSlotUnchanged(crc32, buf, op, Perform(crc32, buf, op).value, slot, base);
    }
  }
}
