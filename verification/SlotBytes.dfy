/** Firmware slots byte by byte: what the tool writes where, and what it reads from where. */
module SlotBytes {
  import opened Bits
  import opened Bytearray
  import opened Wrappers
  import S = Slots

  function Base(slot: nat): nat { 0x2_0000 * (slot + 1) }

  /** "FMB1" */
  predicate Fmb1(buf: Bytes, at: nat)
    requires at + 4 <= |buf|
  {
    buf[at] == 0x46 && buf[at + 1] == 0x4d && buf[at + 2] == 0x42 && buf[at + 3] == 0x31
  }

  lemma MagicIs(buf: Bytes, at: nat)
    requires at + 4 <= |buf|
    ensures UnLe(buf[at..at + 4]) == S.SLOT_MAGIC <==> Fmb1(buf, at)
  {
    FieldOf32(buf, at);
  }

  lemma Bases(slot: int)
    ensures if 0 <= slot <= 4 then S.SlotBase(slot) == Ok(Base(slot)) else S.SlotBase(slot) == Err(S.BadSlot)
  {
  }

  /** Committed: the magic, and bit 0 of the flags. */
  predicate Committed(buf: Bytes, base: nat)
    requires base + 16 <= |buf|
  {
    Fmb1(buf, base) && Bit(Word16(buf, base + 6), 0)
  }

  /** The bytes of the image: so many as the size field says, as far as the buffer goes. */
  predicate ImageAt(buf: Bytes, base: nat, image: Bytes)
    requires base + 16 <= |buf|
  {
    var at, size := base + 0x1000, Word32(buf, base + 8);
    && |image| == (if at > |buf| then 0 else if at + size <= |buf| then size else |buf| - at)
    && forall i :: 0 <= i < |image| ==> image[i] == buf[at + i]
  }

  /** What is read of a committed slot: its fields, its image, and whether the CRC over the image is the one in the
      header. */
  ghost predicate ReadAs(crc32: S.Crc32, buf: Bytes, slot: nat, h: S.Header, image: Bytes)
    requires Base(slot) + 16 <= |buf|
  {
    var base := Base(slot);
    && h.slot == slot && h.base == base && h.version == Word16(buf, base + 4)
    && h.flags == Word16(buf, base + 6) && h.size == Word32(buf, base + 8)
    && h.crc == Word32(buf, base + 12) && ImageAt(buf, base, image)
    && (h.crcOk <==> crc32(image) == Word32(buf, base + 12))
    && (base + 48 <= |buf| ==>
          h.name == UpToNul(buf[base + 16..base + 32]) && h.firmware == UpToNul(buf[base + 32..base + 48]))
  }

  /** Reading a slot: refused for a slot that there is not or a buffer that ends before its header's numbers; nothing
      if it is not committed. */
  lemma ReadExactly(crc32: S.Crc32, buf: Bytes, slot: int)
    ensures var r := S.ReadSlot(crc32, buf, slot);
            if !(0 <= slot <= 4) then r == Err(S.BadSlot)
            else if Base(slot) + 16 > |buf| then r == Err(S.ShortBuffer)
            else if !Committed(buf, Base(slot)) then r == Ok(None)
            else r.Ok? && r.value.Some? && ReadAs(crc32, buf, slot, r.value.value.0, r.value.value.1)
  {
    Bases(slot);
    if 0 <= slot <= 4 && Base(slot) + 16 <= |buf| {
      NumbersRead(buf, Base(slot));
      if Committed(buf, Base(slot)) {
        CommittedRead(crc32, buf, slot);
      }
    }
  }

  lemma NumbersRead(buf: Bytes, base: nat)
    requires base + 16 <= |buf|
    ensures UnLe(buf[base..base + 4]) == S.SLOT_MAGIC <==> Fmb1(buf, base)
    ensures UnLe(buf[base + 4..base + 6]) == Word16(buf, base + 4)
    ensures UnLe(buf[base + 6..base + 8]) == Word16(buf, base + 6)
    ensures UnLe(buf[base + 8..base + 12]) == Word32(buf, base + 8)
    ensures UnLe(buf[base + 12..base + 16]) == Word32(buf, base + 12)
  {
    MagicIs(buf, base);
    FieldOf16(buf, base + 4);
    FieldOf16(buf, base + 6);
    FieldOf32(buf, base + 8);
    FieldOf32(buf, base + 12);
  }

  lemma CommittedRead(crc32: S.Crc32, buf: Bytes, slot: nat)
    requires slot <= 4 && Base(slot) + 16 <= |buf| && Committed(buf, Base(slot))
    ensures var r := S.ReadSlot(crc32, buf, slot);
            r.Ok? && r.value.Some? && ReadAs(crc32, buf, slot, r.value.value.0, r.value.value.1)
  {
    Bases(slot);
    NumbersRead(buf, Base(slot));
    SliceIsImage(buf, Base(slot), Word32(buf, Base(slot) + 8));
  }

  lemma SliceIsImage(buf: Bytes, base: nat, size: nat)
    requires base + 16 <= |buf| && size == Word32(buf, base + 8)
    ensures ImageAt(buf, base, S.Slice(buf, base + 0x1000, size))
  {
  }

  /** So a slot whose image is not the one its header was made for is reported as such, whenever the CRC tells. */
  lemma CorruptionShows(crc32: S.Crc32, buf: Bytes, slot: int, image: Bytes)
    requires 0 <= slot <= 4 && Base(slot) + 16 <= |buf| && Committed(buf, Base(slot)) && ImageAt(buf, Base(slot), image)
    requires crc32(image) != Word32(buf, Base(slot) + 12)
    ensures var r := S.ReadSlot(crc32, buf, slot);
            r.Ok? && r.value.Some? && r.value.value.1 == image && !r.value.value.0.crcOk
  {
    ReadExactly(crc32, buf, slot);
    SameImage(buf, Base(slot), image, S.ReadSlot(crc32, buf, slot).value.value.1);
  }

  lemma SameImage(buf: Bytes, base: nat, x: Bytes, y: Bytes)
    requires base + 16 <= |buf| && ImageAt(buf, base, x) && ImageAt(buf, base, y)
    ensures x == y
  {
  }

  // ------------------------------------------------ writing

  /** Up to fifteen characters of a text, a question mark for what is not ASCII, and zeros after them. */
  predicate NameAt(buf: Bytes, at: nat, s: string)
    requires at + 16 <= |buf|
  {
    var n := if |s| > 15 then 15 else |s|;
    forall i :: at <= i < at + 16 ==>
      buf[i] == if i - at < n then (if s[i - at] as nat < 128 then s[i - at] as nat else 0x3f) else 0
  }

  /** The header of a slot as it stands in the buffer. */
  predicate HeaderAt(buf: Bytes, at: nat, size: nat, crc: nat, name: string, version: string)
    requires at + 64 <= |buf|
  {
    && Fmb1(buf, at) && Word16(buf, at + 4) == 1 && Word16(buf, at + 6) == 1
    && Word32(buf, at + 8) == size && Word32(buf, at + 12) == crc
    && NameAt(buf, at + 16, name) && NameAt(buf, at + 32, version)
    && forall i :: at + 48 <= i < at + 64 ==> buf[i] == 0
  }

  /** A write that is not refused puts the header at the slot's base and the image a sector behind it, and leaves every
      other byte alone. */
  lemma WriteExactly(crc32: S.Crc32, buf: Bytes, slot: int, image: Bytes, name: string, version: string)
    requires 0 <= slot <= 4 ==> Base(slot) + 0x2_0000 <= |buf|
    ensures var r := S.WriteSlot(crc32, buf, slot, image, name, version);
            if !(0 <= slot <= 4) then r == Err(S.BadSlot)
            else if |image| > 0x1_f000 then r == Err(S.ImageTooLong)
            else
              && r.Ok? && |r.value| == |buf|
              && HeaderAt(r.value, Base(slot), |image|, crc32(image), name, version)
              && var at := Base(slot) + 0x1000;
                 forall i :: 0 <= i < |buf| && !(Base(slot) <= i < Base(slot) + 64) ==>
                   r.value[i] == if at <= i < at + |image| then image[i - at] else buf[i]
  {
    Bases(slot);
    if 0 <= slot <= 4 && |image| <= 0x1_f000 {
      var base := Base(slot);
      var h := S.BuildHeader(crc32, image, name, version).value;
      var r := S.Place(buf, base, h, image);
      PlacedBytes(buf, base, h, image, r);
      HeaderBuilt(h, crc32(image), image, name, version);
      HeaderMoved(h, r, base, |image|, crc32(image), name, version);
    }
  }

  lemma PlacedBytes(buf: Bytes, base: nat, h: Bytes, image: Bytes, r: Bytes)
    requires |h| == 64 && |image| <= 0x1_f000 && base + 0x2_0000 <= |buf| && r == S.Place(buf, base, h, image)
    ensures |r| == |buf|
    ensures forall i :: 0 <= i < |buf| ==>
              r[i] == if base <= i < base + 64 then h[i - base]
                      else if base + 0x1000 <= i < base + 0x1000 + |image| then image[i - base - 0x1000]
                      else buf[i]
  {
    SpliceFits(buf, base, h);
    SpliceFits(Overwrite(buf, base, h), base + 0x1000, image);
  }

  lemma HeaderMoved(h: Bytes, r: Bytes, base: nat, size: nat, crc: nat, name: string, version: string)
    requires |h| == 64 && base + 64 <= |r| && HeaderAt(h, 0, size, crc, name, version)
    requires forall i :: base <= i < base + 64 ==> r[i] == h[i - base]
    ensures HeaderAt(r, base, size, crc, name, version)
  {
    assert forall k :: 0 <= k < 64 ==> r[base + k] == h[k];
    NameMoved(h, r, base, 16, name);
    NameMoved(h, r, base, 32, version);
  }

  lemma NameMoved(h: Bytes, r: Bytes, base: nat, at: nat, s: string)
    requires |h| == 64 && base + 64 <= |r| && at + 16 <= 64 && NameAt(h, at, s)
    requires forall i :: base <= i < base + 64 ==> r[i] == h[i - base]
    ensures NameAt(r, base + at, s)
  {
    forall i | base + at <= i < base + at + 16
      ensures r[i] == h[i - base]
    {
    }
    var n := if |s| > 15 then 15 else |s|;
    forall i | base + at <= i < base + at + 16
      ensures r[i] == if i - (base + at) < n then
                        (if s[i - (base + at)] as nat < 128 then s[i - (base + at)] as nat else 0x3f)
                      else 0
    {
      assert r[i] == h[i - base];
    }
  }

  lemma HeaderBuilt(h: Bytes, crc: nat, image: Bytes, name: string, version: string)
    requires |image| <= 0x1_f000 && crc < WORD32
    requires h == S.HeaderHead() + S.HeaderSizes(|image|, crc) + S.HeaderText(name, version)
    ensures |h| == 64 && HeaderAt(h, 0, |image|, crc, name, version)
  {
    var head, sizes, text := S.HeaderHead(), S.HeaderSizes(|image|, crc), S.HeaderText(name, version);
    S.HeaderParts(h, head, sizes, text);
    S.HeaderNumbers(head, sizes, |image|, crc);
    NumbersBuilt(h, head, sizes, |image|, crc);
    S.TextFields(text, name, version);
    NameField(h, 16, text[0..16], name);
    NameField(h, 32, text[16..32], version);
    RestIsZero(h, head, sizes, text, name, version);
  }

  lemma NumbersBuilt(h: Bytes, head: Bytes, sizes: Bytes, size: nat, crc: nat)
    requires |h| == 64 && |head| == |sizes| == 8
    requires h[0..4] == head[0..4] && h[4..6] == head[4..6] && h[6..8] == head[6..8]
    requires h[8..12] == sizes[0..4] && h[12..16] == sizes[4..8]
    requires UnLe(head[0..4]) == S.SLOT_MAGIC && UnLe(head[4..6]) == 1 && UnLe(head[6..8]) == 1
    requires UnLe(sizes[0..4]) == size && UnLe(sizes[4..8]) == crc
    ensures Fmb1(h, 0) && Word16(h, 4) == 1 && Word16(h, 6) == 1 && Word32(h, 8) == size && Word32(h, 12) == crc
  {
    MagicIs(h, 0);
    FieldOf16(h, 4);
    FieldOf16(h, 6);
    FieldOf32(h, 8);
    FieldOf32(h, 12);
  }

  lemma NameField(h: Bytes, at: nat, field: Bytes, s: string)
    requires at + 16 <= |h| && h[at..at + 16] == field && field == Padded(S.Cut15(s), 16)
    ensures NameAt(h, at, s)
  {
    forall i | at <= i < at + 16
      ensures h[i] == field[i - at]
    {
      assert h[i] == h[at..at + 16][i - at];
    }
  }

  lemma RestIsZero(h: Bytes, head: Bytes, sizes: Bytes, text: Bytes, name: string, version: string)
    requires h == head + sizes + text && |head| == |sizes| == 8 && text == S.HeaderText(name, version)
    ensures |h| == 64 && forall i :: 48 <= i < 64 ==> h[i] == 0
  {
    forall i | 48 <= i < 64
      ensures h[i] == 0
    {
      assert h[i] == text[i - 16];
    }
  }

  // ------------------------------------------------ erasing

  lemma EraseExactly(buf: Bytes, slot: int)
    requires 0 <= slot <= 4 ==> Base(slot) + 0x2_0000 <= |buf|
    ensures var r := S.EraseSlot(buf, slot);
            if !(0 <= slot <= 4) then r == Err(S.BadSlot)
            else
              && r.Ok? && |r.value| == |buf|
              && forall i :: 0 <= i < |buf| ==>
                   r.value[i] == if Base(slot) <= i < Base(slot) + 0x2_0000 then 0xff else buf[i]
  {
    Bases(slot);
    if 0 <= slot <= 4 {
      SpliceFits(buf, Base(slot), S.Erased(S.STRIDE));
    }
  }

  lemma EraseMarkersExactly(buf: Bytes)
    requires 0x10_1018 <= |buf|
    ensures var r := S.EraseState(buf);
            && |r| == |buf|
            && forall i :: 0 <= i < |buf| ==>
                 r[i] == if 0x10_0000 <= i < 0x10_0018 || 0x10_1000 <= i < 0x10_1018 then 0xff else buf[i]
  {
    var blank := S.Erased(24);
    SpliceFits(buf, 0x10_0000, blank);
    SpliceFits(Overwrite(buf, 0x10_0000, blank), 0x10_1000, blank);
  }
}
