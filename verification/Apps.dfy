/** Overlay apps: what a .app blob holds, and the app slots of the external flash image. */
module Apps {
  import opened Bits
  import opened Bytearray
  import opened Wrappers
  import Slots

  const MAGIC: nat := 0x31504146
  const HDR_VERSION: nat := 1
  const OVERLAY_MAX: nat := 0x1000
  const HDR_SIZE: nat := 64
  const REGION_BASE: nat := 0x10_2000
  const STRIDE: nat := 0x2000
  const CODE_OFFSET: nat := 0x1000
  const SLOT_COUNT: nat := 16
  const OVERLAY_VMA: nat := 0x2000_0280
  const FAP1: Bytes := [0x46, 0x41, 0x50, 0x31]
  const FMB1: Bytes := [0x46, 0x4d, 0x42, 0x31]

  datatype Error =
    SlotRange | TooShort | NotAnApp | OtherHeaderVersion | BadCodeSize | CodeMissing | CrcMismatch | OtherVma |
    CodeTooLong | BadName | UnknownShortcut | NotAscii | FieldRange | ImageTooSmall | Occupied

  datatype Shortcut = NoShortcut | Fm | FoxHunt | Beacon | Beam | Unknown(text: string)

  datatype Info = Info(abi: nat, apiMin: nat, codeSize: nat, crc: nat, entry: nat, flags: nat, name: string,
                       version: string, vma: nat, capabilities: nat, committed: bool, screenSaver: bool,
                       shortcut: Shortcut, headerVersion: nat)

  function SlotBase(slot: int): Result<nat, Error>
  {
    if 0 <= slot < SLOT_COUNT then Ok(REGION_BASE + slot * 0x2000) else Err(SlotRange)
  }

  // ------------------------------------------------ text

  predicate White(c: char)
  {
    9 <= c as nat <= 13 || 28 <= c as nat <= 32
  }

  function StripLeft(s: string): (r: string)
    ensures |r| <= |s|
    ensures r != [] ==> !White(r[0])
  {
    if s != [] && White(s[0]) then StripLeft(s[1..]) else s
  }

  function StripRight(s: string): (r: string)
    ensures |r| <= |s| && r <= s
    ensures r != [] ==> !White(r[|r| - 1])
  {
    if s != [] && White(s[|s| - 1]) then StripRight(s[..|s| - 1]) else s
  }

  function Strip(s: string): string
  {
    StripRight(StripLeft(s))
  }

  function Chars(bs: Bytes): (s: string)
    ensures |s| == |bs|
  {
    seq(|bs|, i requires 0 <= i < |bs| => if bs[i] < 128 then bs[i] as char else '\U{FFFD}')
  }

  /** The text of a fixed-width field: up to its first NUL, stripped of white space at both ends. */
  function Text(raw: Bytes): string
  {
    Strip(Chars(UpToNul(raw)))
  }

  predicate IsAscii(s: string)
  {
    forall i :: 0 <= i < |s| ==> s[i] as nat < 128
  }

  // ------------------------------------------------ the blob

  function ShortcutOf(flags: nat): Shortcut
  {
    var k := flags / 0x100 % 16;
    if k == 1 then Fm else if k == 2 then FoxHunt else if k == 4 then Beacon else if k == 8 then Beam else NoShortcut
  }

  /** The flag a known shortcut sets. */
  function ShortcutBit(s: Shortcut): nat
    requires !s.NoShortcut? && !s.Unknown?
  {
    match s
    case Fm => 0x100
    case FoxHunt => 0x200
    case Beacon => 0x400
    case Beam => 0x800
  }

  /** flags | bit, for a power of two and flags of either sign. */
  function OrBit(flags: int, bit: nat): int
    requires bit > 0
  {
    if flags / bit % 2 == 1 then flags else flags + bit
  }

  function FlagsWith(flags: int, s: Shortcut): int
  {
    if s.NoShortcut? || s.Unknown? then flags else OrBit(flags, ShortcutBit(s))
  }

  function Unpack(h: Bytes): Info
    requires |h| >= HDR_SIZE
  {
    var flags := UnLe(h[18..20]);
    Info(h[6], h[7], UnLe(h[8..12]), UnLe(h[12..16]), UnLe(h[16..18]), flags, Text(h[20..36]), Text(h[36..52]),
         UnLe(h[52..56]), UnLe(h[56..60]), flags % 2 == 1, flags / 2 % 2 == 1, ShortcutOf(flags), UnLe(h[4..6]))
  }

  /** The header of a blob, validated; a lenient parse checks only the length and the magic. */
  function Parse(crc32: Slots.Crc32, blob: Bytes, strict: bool): Result<Info, Error>
  {
    if |blob| < HDR_SIZE then Err(TooShort)
    else if UnLe(blob[0..4]) != MAGIC then Err(NotAnApp)
    else
      var info := Unpack(blob);
      if !strict then Ok(info)
      else if info.headerVersion != HDR_VERSION then Err(OtherHeaderVersion)
      else if info.codeSize == 0 || info.codeSize > OVERLAY_MAX then Err(BadCodeSize)
      else if |blob| < HDR_SIZE + info.codeSize then Err(CodeMissing)
      else if crc32(blob[HDR_SIZE..HDR_SIZE + info.codeSize]) != info.crc then Err(CrcMismatch)
      else if info.vma != OVERLAY_VMA then Err(OtherVma)
      else Ok(info)
  }

  function HeaderHead(abi: Byte, apiMin: Byte): (r: Bytes)
    ensures |r| == 8
  {
    Le(MAGIC, 4) + Le(HDR_VERSION, 2) + [abi, apiMin]
  }

  function HeaderSizes(size: nat, crc: nat, flags: nat): (r: Bytes)
    ensures |r| == 12
  {
    Le(size, 4) + Le(crc, 4) + (Le(0, 2) + Le(flags, 2))
  }

  function HeaderText(name: string, version: string): (r: Bytes)
    ensures |r| == 32
  {
    Padded(Slots.Ascii(name), 16) + Padded(Slots.Ascii(version), 16)
  }

  function HeaderTail(capabilities: nat): (r: Bytes)
    ensures |r| == 12
  {
    Le(OVERLAY_VMA, 4) + Le(capabilities, 4) + Le(0, 4)
  }

  function Build(crc32: Slots.Crc32, code: Bytes, name: string, version: string, abi: int, apiMin: int,
                 shortcut: Shortcut, flags: int, capabilities: int): (r: Result<Bytes, Error>)
    ensures r.Ok? ==> |r.value| == HDR_SIZE + |code|
  {
    var all := FlagsWith(flags, shortcut);
    if |code| > OVERLAY_MAX then Err(CodeTooLong)
    else if name == "" || |name| >= 16 || version == "" || |version| >= 16 then Err(BadName)
    else if shortcut.Unknown? then Err(UnknownShortcut)
    else if !IsAscii(name) || !IsAscii(version) then Err(NotAscii)
    else if !(0 <= abi < 256 && 0 <= apiMin < 256 && 0 <= all < 0x1_0000 && 0 <= capabilities < WORD32)
    then Err(FieldRange)
    else Ok(HeaderHead(abi, apiMin) + HeaderSizes(|code|, crc32(code), all) +
            (HeaderText(name, version) + HeaderTail(capabilities)) + code)
  }

  // ------------------------------------------------ parsing what was built

  /** One flag is set and the others are kept, so a shortcut reads back exactly when no other shortcut bit was set
      before; and none reads back exactly when the flags do not hold a single shortcut bit. */
  lemma ShortcutRecovered(flags: nat, s: Shortcut)
    requires !s.Unknown?
    ensures var nibble := flags / 0x100 % 16;
            ShortcutOf(FlagsWith(flags, s)) == s <==>
            if s.NoShortcut? then nibble != 1 && nibble != 2 && nibble != 4 && nibble != 8
            else nibble == 0 || nibble == ShortcutBit(s) / 0x100
  {
    if !s.NoShortcut? {
      var k := flags / 0x100;
      var bit := ShortcutBit(s) / 0x100;
      assert flags / ShortcutBit(s) == k / bit;
      assert FlagsWith(flags, s) / 0x100 == if k / bit % 2 == 1 then k else k + bit;
      ShortcutNibble(k, bit);
    }
  }

  lemma ShortcutNibble(k: nat, bit: nat)
    requires bit == 1 || bit == 2 || bit == 4 || bit == 8
    ensures (if k / bit % 2 == 1 then k else k + bit) % 16 == bit <==> k % 16 == 0 || k % 16 == bit
  {
    NibbleBit(k / 16, k % 16, bit);
    NibbleSum(k / 16, k % 16, bit);
  }

  lemma NibbleBit(q: nat, m: nat, bit: nat)
    requires m < 16 && (bit == 1 || bit == 2 || bit == 4 || bit == 8)
    ensures (16 * q + m) / bit % 2 == m / bit % 2
  {
    if bit == 2 {
      EvenPlus(4 * q, m / 2, (16 * q + m) / 2);
    } else if bit == 4 {
      EvenPlus(2 * q, m / 4, (16 * q + m) / 4);
    } else if bit == 8 {
      EvenPlus(q, m / 8, (16 * q + m) / 8);
    }
  }

  lemma EvenPlus(a: nat, b: nat, n: nat)
    requires n == 2 * a + b
    ensures n % 2 == b % 2
  {
  }

  lemma NibbleSum(q: nat, m: nat, bit: nat)
    requires m < 16 && (bit == 1 || bit == 2 || bit == 4 || bit == 8)
    ensures (16 * q + m + bit) % 16 == (m + bit) % 16
    ensures (if m / bit % 2 == 1 then m else m + bit) % 16 == bit <==> m == 0 || m == bit
  {
    NibbleTable(m, bit);
  }

  lemma NibbleTable(m: nat, bit: nat)
    requires m < 16 && (bit == 1 || bit == 2 || bit == 4 || bit == 8)
    ensures (if m / bit % 2 == 1 then m else m + bit) % 16 == bit <==> m == 0 || m == bit
  {
    if bit == 8 {
      assert m / 8 % 2 == 1 <==> m >= 8;
    } else if bit == 4 {
      assert m / 4 % 2 == 1 <==> 4 <= m < 8 || 12 <= m;
    } else if bit == 2 {
      assert m / 2 % 2 == 1 ==> m != 0;
    }
  }

  lemma HeaderParts(h: Bytes, head: Bytes, sizes: Bytes, text: Bytes, tail: Bytes)
    requires |head| == 8 && |sizes| == 12 && |text| == 32 && |tail| == 12
    requires |h| >= HDR_SIZE && h[..HDR_SIZE] == head + sizes + (text + tail)
    ensures h[0..4] == head[0..4] && h[4..6] == head[4..6] && h[6] == head[6] && h[7] == head[7]
    ensures h[8..12] == sizes[0..4] && h[12..16] == sizes[4..8] && h[16..18] == sizes[8..10] &&
            h[18..20] == sizes[10..12]
    ensures h[20..36] == text[0..16] && h[36..52] == text[16..32]
    ensures h[52..56] == tail[0..4] && h[56..60] == tail[4..8]
  {
    var f := h[..HDR_SIZE];
    Three(f, head, sizes, text + tail);
    Slices(h, f, 0, head);
    Slices(h, f, 8, sizes);
    assert f[20..52] == text && f[52..64] == tail;
    Slices(h, f, 20, text);
    Slices(h, f, 52, tail);
    SubSlice(h, 0, head, 0, 4);
    SubSlice(h, 0, head, 4, 6);
    SubSlice(h, 8, sizes, 0, 4);
    SubSlice(h, 8, sizes, 4, 8);
    SubSlice(h, 8, sizes, 8, 10);
    SubSlice(h, 8, sizes, 10, 12);
    SubSlice(h, 20, text, 0, 16);
    SubSlice(h, 20, text, 16, 32);
    SubSlice(h, 52, tail, 0, 4);
    SubSlice(h, 52, tail, 4, 8);
  }

  lemma Slices(h: Bytes, f: Bytes, at: nat, part: Bytes)
    requires f <= h && at + |part| <= |f| && f[at..at + |part|] == part
    ensures h[at..at + |part|] == part
    ensures forall i :: 0 <= i < |part| ==> h[at + i] == part[i]
  {
    forall i | 0 <= i < |part|
      ensures h[at + i] == part[i]
    {
      assert f[at..at + |part|][i] == f[at + i];
    }
  }

  lemma HeadFields(head: Bytes, abi: Byte, apiMin: Byte)
    requires head == HeaderHead(abi, apiMin)
    ensures UnLe(head[0..4]) == MAGIC && UnLe(head[4..6]) == HDR_VERSION && head[6] == abi && head[7] == apiMin
  {
    FieldWidths();
    Three(head, Le(MAGIC, 4), Le(HDR_VERSION, 2), [abi, apiMin]);
    LeRoundTrip(MAGIC, 4);
    LeRoundTrip(HDR_VERSION, 2);
  }

  lemma FourParts(s: Bytes, a: Bytes, b: Bytes, c: Bytes, d: Bytes)
    requires s == a + b + (c + d) && |a| == |b| == 4 && |c| == |d| == 2
    ensures s[0..4] == a && s[4..8] == b && s[8..10] == c && s[10..12] == d
  {
    Three(s, a, b, c + d);
    Three(s[8..], c, d, []);
  }

  lemma SizeFields(sizes: Bytes, size: nat, crc: nat, flags: nat)
    requires sizes == HeaderSizes(size, crc, flags) && size < WORD32 && crc < WORD32 && flags < 0x1_0000
    ensures UnLe(sizes[0..4]) == size && UnLe(sizes[4..8]) == crc
    ensures UnLe(sizes[8..10]) == 0 && UnLe(sizes[10..12]) == flags
  {
    FourParts(sizes, Le(size, 4), Le(crc, 4), Le(0, 2), Le(flags, 2));
    SizeNumbers(size, crc, flags);
  }

  lemma SizeNumbers(size: nat, crc: nat, flags: nat)
    requires size < WORD32 && crc < WORD32 && flags < 0x1_0000
    ensures UnLe(Le(size, 4)) == size && UnLe(Le(crc, 4)) == crc && UnLe(Le(0, 2)) == 0 && UnLe(Le(flags, 2)) == flags
  {
    FieldWidths();
    LeRoundTrip(size, 4);
    LeRoundTrip(crc, 4);
    LeRoundTrip(0, 2);
    LeRoundTrip(flags, 2);
  }

  lemma TextFields(text: Bytes, name: string, version: string)
    requires text == HeaderText(name, version) && |name| < 16 && |version| < 16
    ensures Text(text[0..16]) == Text(Slots.Ascii(name)) && Text(text[16..32]) == Text(Slots.Ascii(version))
  {
    Three(text, Padded(Slots.Ascii(name), 16), Padded(Slots.Ascii(version), 16), []);
    UpToNulPadded(Slots.Ascii(name), 16);
    UpToNulPadded(Slots.Ascii(version), 16);
  }

  lemma TailFields(tail: Bytes, capabilities: nat)
    requires tail == HeaderTail(capabilities) && capabilities < WORD32
    ensures UnLe(tail[0..4]) == OVERLAY_VMA && UnLe(tail[4..8]) == capabilities
  {
    FieldWidths();
    Three(tail, Le(OVERLAY_VMA, 4), Le(capabilities, 4), Le(0, 4));
    LeRoundTrip(OVERLAY_VMA, 4);
    LeRoundTrip(capabilities, 4);
  }

  /** What a blob built from these arguments says of itself. */
  function BuiltInfo(crc: nat, size: nat, name: string, version: string, abi: nat, apiMin: nat, flags: nat,
                     capabilities: nat): Info
  {
    Info(abi, apiMin, size, crc, 0, flags, Text(Slots.Ascii(name)), Text(Slots.Ascii(version)), OVERLAY_VMA,
         capabilities, flags % 2 == 1, flags / 2 % 2 == 1, ShortcutOf(flags), HDR_VERSION)
  }

  lemma UnpackParts(h: Bytes, head: Bytes, sizes: Bytes, text: Bytes, tail: Bytes, crc: nat, size: nat, name: string,
                    version: string, abi: Byte, apiMin: Byte, flags: nat, capabilities: nat)
    requires head == HeaderHead(abi, apiMin) && sizes == HeaderSizes(size, crc, flags)
    requires text == HeaderText(name, version) && tail == HeaderTail(capabilities)
    requires |name| < 16 && |version| < 16
    requires size < WORD32 && crc < WORD32 && flags < 0x1_0000 && capabilities < WORD32
    requires |h| >= HDR_SIZE && h[..HDR_SIZE] == head + sizes + (text + tail)
    ensures UnLe(h[0..4]) == MAGIC
    ensures Unpack(h) == BuiltInfo(crc, size, name, version, abi, apiMin, flags, capabilities)
  {
    HeaderParts(h, head, sizes, text, tail);
    HeadFields(head, abi, apiMin);
    SizeFields(sizes, size, crc, flags);
    TextFields(text, name, version);
    TailFields(tail, capabilities);
  }

  /** Parsing a built blob gives back what it was built from. The strict parse refuses exactly the one blob
      that the builder makes and the radio would not run, that without code. */
  lemma ParseOfBuild(crc32: Slots.Crc32, code: Bytes, name: string, version: string, abi: int, apiMin: int,
                     shortcut: Shortcut, flags: int, capabilities: int, blob: Bytes)
    requires Build(crc32, code, name, version, abi, apiMin, shortcut, flags, capabilities) == Ok(blob)
    ensures Parse(crc32, blob, true) ==
            if code == [] then Err(BadCodeSize)
            else Ok(BuiltInfo(crc32(code), |code|, name, version, abi, apiMin, FlagsWith(flags, shortcut),
                              capabilities))
  {
    var all := FlagsWith(flags, shortcut);
    var head, sizes := HeaderHead(abi, apiMin), HeaderSizes(|code|, crc32(code), all);
    var text, tail := HeaderText(name, version), HeaderTail(capabilities);
    ParsePacked(crc32, blob, code, head, sizes, text, tail, name, version, abi, apiMin, all, capabilities);
  }

  lemma ParsePacked(crc32: Slots.Crc32, blob: Bytes, code: Bytes, head: Bytes, sizes: Bytes, text: Bytes, tail: Bytes,
                    name: string, version: string, abi: Byte, apiMin: Byte, flags: nat, capabilities: nat)
    requires head == HeaderHead(abi, apiMin) && sizes == HeaderSizes(|code|, crc32(code), flags)
    requires text == HeaderText(name, version) && tail == HeaderTail(capabilities)
    requires |name| < 16 && |version| < 16 && |code| <= OVERLAY_MAX && flags < 0x1_0000 && capabilities < WORD32
    requires blob == head + sizes + (text + tail) + code
    ensures Parse(crc32, blob, true) ==
            if code == [] then Err(BadCodeSize)
            else Ok(BuiltInfo(crc32(code), |code|, name, version, abi, apiMin, flags, capabilities))
  {
    SplitBlob(blob, head + sizes + (text + tail), code);
    UnpackParts(blob, head, sizes, text, tail, crc32(code), |code|, name, version, abi, apiMin, flags, capabilities);
    ParseByParts(crc32, blob, code, BuiltInfo(crc32(code), |code|, name, version, abi, apiMin, flags, capabilities));
  }

  lemma ParseByParts(crc32: Slots.Crc32, blob: Bytes, code: Bytes, info: Info)
    requires |blob| == HDR_SIZE + |code| && blob[HDR_SIZE..HDR_SIZE + |code|] == code && |code| <= OVERLAY_MAX
    requires UnLe(blob[0..4]) == MAGIC && Unpack(blob) == info
    requires info.headerVersion == HDR_VERSION && info.codeSize == |code| && info.crc == crc32(code) &&
             info.vma == OVERLAY_VMA
    ensures Parse(crc32, blob, true) == if code == [] then Err(BadCodeSize) else Ok(info)
  {
  }

  // ------------------------------------------------ what the parse accepts, byte by byte

  predicate AppMagic(blob: Bytes)
    requires |blob| >= 64
  {
    blob[0] == 0x46 && blob[1] == 0x41 && blob[2] == 0x50 && blob[3] == 0x31
  }

  /** The blob's size of code: the number at 8. */
  function CodeSize(blob: Bytes): nat
    requires |blob| >= 64
  {
    Word32(blob, 8)
  }

  /** The code is all there, and is what the CRC field at 12 says. */
  predicate CodeIntact(crc32: Slots.Crc32, blob: Bytes)
    requires |blob| >= 64
  {
    |blob| >= 64 + CodeSize(blob) && crc32(blob[64..64 + CodeSize(blob)]) == Word32(blob, 12)
  }

  /** An app that the radio runs. */
  predicate Runnable(crc32: Slots.Crc32, blob: Bytes)
  {
    && |blob| >= 64 && AppMagic(blob) && Word16(blob, 4) == 1 && 1 <= CodeSize(blob) <= 4096
    && CodeIntact(crc32, blob) && Word32(blob, 52) == 0x2000_0280
  }

  /** The first thing wrong with a blob: those before it are right. */
  predicate WrongFirst(crc32: Slots.Crc32, blob: Bytes, e: Error)
  {
    if |blob| < 64 then e == TooShort
    else
      match e
      case NotAnApp => !AppMagic(blob)
      case OtherHeaderVersion => AppMagic(blob) && Word16(blob, 4) != 1
      case BadCodeSize => AppMagic(blob) && Word16(blob, 4) == 1 && !(1 <= CodeSize(blob) <= 4096)
      case CodeMissing =>
        AppMagic(blob) && Word16(blob, 4) == 1 && 1 <= CodeSize(blob) <= 4096 && |blob| < 64 + CodeSize(blob)
      case CrcMismatch =>
        && AppMagic(blob) && Word16(blob, 4) == 1 && 1 <= CodeSize(blob) <= 4096
        && |blob| >= 64 + CodeSize(blob) && !CodeIntact(crc32, blob)
      case OtherVma =>
        && AppMagic(blob) && Word16(blob, 4) == 1 && 1 <= CodeSize(blob) <= 4096
        && CodeIntact(crc32, blob) && Word32(blob, 52) != 0x2000_0280
      case _ => false
  }

  /** The record of a blob, field by field. */
  predicate Describes(info: Info, blob: Bytes)
    requires |blob| >= 64
  {
    var flags := Word16(blob, 18);
    && info.headerVersion == Word16(blob, 4) && info.abi == blob[6] && info.apiMin == blob[7]
    && info.codeSize == CodeSize(blob) && info.crc == Word32(blob, 12) && info.entry == Word16(blob, 16)
    && info.flags == flags && info.name == Text(blob[20..36]) && info.version == Text(blob[36..52])
    && info.vma == Word32(blob, 52) && info.capabilities == Word32(blob, 56)
    && info.committed == Bit(flags, 0) && info.screenSaver == Bit(flags, 1)
    && (info.shortcut == Fm <==> flags / 256 % 16 == 1) && (info.shortcut == FoxHunt <==> flags / 256 % 16 == 2)
    && (info.shortcut == Beacon <==> flags / 256 % 16 == 4) && (info.shortcut == Beam <==> flags / 256 % 16 == 8)
    && (info.shortcut.NoShortcut? || !info.shortcut.Unknown?)
  }

  lemma HeaderNumbers(blob: Bytes)
    requires |blob| >= 64
    ensures UnLe(blob[0..4]) == MAGIC <==> AppMagic(blob)
    ensures UnLe(blob[4..6]) == Word16(blob, 4) && UnLe(blob[8..12]) == Word32(blob, 8)
    ensures UnLe(blob[12..16]) == Word32(blob, 12) && UnLe(blob[16..18]) == Word16(blob, 16)
    ensures UnLe(blob[18..20]) == Word16(blob, 18) && UnLe(blob[52..56]) == Word32(blob, 52)
    ensures UnLe(blob[56..60]) == Word32(blob, 56)
  {
    MagicNumber(blob);
    FieldOf16(blob, 4);
    FieldOf32(blob, 8);
    FieldOf32(blob, 12);
    FieldOf16(blob, 16);
    FieldOf16(blob, 18);
    FieldOf32(blob, 52);
    FieldOf32(blob, 56);
  }

  lemma MagicNumber(blob: Bytes)
    requires |blob| >= 64
    ensures UnLe(blob[0..4]) == MAGIC <==> AppMagic(blob)
  {
    MagicBytes(blob[0..4]);
    assert AppMagic(blob) ==> blob[0..4] == FAP1;
    if blob[0..4] == FAP1 {
      assert blob[0] == FAP1[0] && blob[1] == FAP1[1] && blob[2] == FAP1[2] && blob[3] == FAP1[3];
    }
  }

  lemma UnpackDescribes(blob: Bytes)
    requires |blob| >= 64
    ensures Describes(Unpack(blob), blob)
  {
    HeaderNumbers(blob);
  }

  /** A strict parse accepts exactly the apps that the radio runs, and says of any other blob what is wrong first. */
  lemma ParseExactly(crc32: Slots.Crc32, blob: Bytes)
    ensures Parse(crc32, blob, true).Ok? <==> Runnable(crc32, blob)
    ensures Parse(crc32, blob, true).Err? ==> WrongFirst(crc32, blob, Parse(crc32, blob, true).error)
    ensures Parse(crc32, blob, true).Ok? ==> Describes(Parse(crc32, blob, true).value, blob)
  {
    if |blob| >= 64 {
      HeaderNumbers(blob);
      UnpackDescribes(blob);
    }
  }

  /** A lenient parse looks at the length and the magic only. */
  lemma LenientExactly(crc32: Slots.Crc32, blob: Bytes)
    ensures Parse(crc32, blob, false).Ok? <==> |blob| >= 64 && AppMagic(blob)
    ensures Parse(crc32, blob, false).Ok? ==> Describes(Parse(crc32, blob, false).value, blob)
  {
    if |blob| >= 64 {
      HeaderNumbers(blob);
      UnpackDescribes(blob);
    }
  }

  lemma OneWrong(crc32: Slots.Crc32, blob: Bytes, e: Error, f: Error)
    requires WrongFirst(crc32, blob, e)
    ensures !Runnable(crc32, blob) && (WrongFirst(crc32, blob, f) <==> e == f)
  {
  }

  lemma SplitBlob(blob: Bytes, header: Bytes, code: Bytes)
    requires blob == header + code
    ensures blob[..|header|] == header && blob[|header|..|header| + |code|] == code
  {
  }

  /** The bytes of text in a field, and zeros after it. */
  predicate TextAt(blob: Bytes, at: nat, width: nat, s: string)
    requires at + width <= |blob| && |s| <= width
  {
    forall i :: at <= i < at + width ==> blob[i] == if i - at < |s| then s[i - at] as nat else 0
  }

  /** What a blob must be built from, if it is to be built. */
  predicate Buildable(code: Bytes, name: string, version: string, abi: int, apiMin: int, shortcut: Shortcut, flags: int,
                      capabilities: int)
  {
    && |code| <= 4096 && 1 <= |name| <= 15 && 1 <= |version| <= 15 && IsAscii(name) && IsAscii(version)
    && !shortcut.Unknown? && 0 <= abi <= 0xff && 0 <= apiMin <= 0xff && 0 <= FlagsWith(flags, shortcut) <= 0xffff
    && 0 <= capabilities <= 0xffff_ffff
  }

  /** A built blob, byte by byte: the header's fields in place, and the code behind it. */
  lemma BuildLayout(crc32: Slots.Crc32, code: Bytes, name: string, version: string, abi: int, apiMin: int,
                    shortcut: Shortcut, flags: int, capabilities: int)
    ensures var r := Build(crc32, code, name, version, abi, apiMin, shortcut, flags, capabilities);
            && (r.Ok? <==> Buildable(code, name, version, abi, apiMin, shortcut, flags, capabilities))
            && (r.Ok? ==>
                  var b := r.value;
                  && |b| == 64 + |code| && AppMagic(b) && Word16(b, 4) == 1 && b[6] == abi && b[7] == apiMin
                  && Word32(b, 8) == |code| && Word32(b, 12) == crc32(code) && Word16(b, 16) == 0
                  && Word16(b, 18) == FlagsWith(flags, shortcut)
                  && TextAt(b, 20, 16, name) && TextAt(b, 36, 16, version)
                  && Word32(b, 52) == 0x2000_0280 && Word32(b, 56) == capabilities && b[64..] == code)
  {
    var r := Build(crc32, code, name, version, abi, apiMin, shortcut, flags, capabilities);
    if r.Ok? {
      var all := FlagsWith(flags, shortcut);
      var head, sizes := HeaderHead(abi, apiMin), HeaderSizes(|code|, crc32(code), all);
      var text, tail := HeaderText(name, version), HeaderTail(capabilities);
      PackedLayout(r.value, head, sizes, text, tail, code, abi, apiMin, |code|, crc32(code), all, capabilities);
      TextsAt(r.value, head, sizes, text, tail, code, name, version);
    }
  }

  lemma PackedLayout(b: Bytes, head: Bytes, sizes: Bytes, text: Bytes, tail: Bytes, code: Bytes, abi: Byte,
                     apiMin: Byte, size: nat, crc: nat, flags: nat, capabilities: nat)
    requires head == HeaderHead(abi, apiMin) && sizes == HeaderSizes(size, crc, flags) &&
             tail == HeaderTail(capabilities)
    requires |text| == 32 && size < WORD32 && crc < WORD32 && flags < 0x1_0000 && capabilities < WORD32
    requires b == head + sizes + (text + tail) + code
    ensures |b| == 64 + |code| && AppMagic(b) && Word16(b, 4) == 1 && b[6] == abi && b[7] == apiMin
    ensures Word32(b, 8) == size && Word32(b, 12) == crc && Word16(b, 16) == 0 && Word16(b, 18) == flags
    ensures Word32(b, 52) == 0x2000_0280 && Word32(b, 56) == capabilities && b[64..] == code
  {
    SplitBlob(b, head + sizes + (text + tail), code);
    HeaderParts(b, head, sizes, text, tail);
    HeadFields(head, abi, apiMin);
    SizeFields(sizes, size, crc, flags);
    TailFields(tail, capabilities);
    HeaderNumbers(b);
  }

  lemma FieldText(b: Bytes, at: nat, field: Bytes, s: string)
    requires at + 16 <= |b| && b[at..at + 16] == field && field == Padded(Slots.Ascii(s), 16) && |s| < 16 && IsAscii(s)
    ensures TextAt(b, at, 16, s)
  {
    forall i | at <= i < at + 16
      ensures b[i] == if i - at < |s| then s[i - at] as nat else 0
    {
      assert b[i] == b[at..at + 16][i - at];
    }
  }

  lemma TextsAt(b: Bytes, head: Bytes, sizes: Bytes, text: Bytes, tail: Bytes, code: Bytes, name: string,
                version: string)
    requires |head| == 8 && |sizes| == 12 && |tail| == 12 && text == HeaderText(name, version)
    requires |name| < 16 && |version| < 16 && b == head + sizes + (text + tail) + code
    requires IsAscii(name) && IsAscii(version)
    ensures TextAt(b, 20, 16, name) && TextAt(b, 36, 16, version)
  {
    SplitBlob(b, head + sizes + (text + tail), code);
    HeaderParts(b, head, sizes, text, tail);
    forall i | 0 <= i < 16
      ensures b[20..36][i] == text[i] && b[36..52][i] == text[16 + i]
    {
      assert b[20..36][i] == text[0..16][i] && b[36..52][i] == text[16..32][i];
    }
    FieldText(b, 20, text[0..16], name);
    FieldText(b, 36, text[16..32], version);
  }

  /** A name survives the trip exactly if it holds no NUL and no white space at its ends. */
  lemma NameRecovered(s: string)
    requires s != "" && IsAscii(s)
    ensures Text(Slots.Ascii(s)) == s <==> NulFree(Slots.Ascii(s)) && !White(s[0]) && !White(s[|s| - 1])
  {
    var bs := Slots.Ascii(s);
    if NulFree(bs) {
      UpToNulAll(bs);
      assert Chars(bs) == s;
    } else {
      UpToNulShort(bs);
    }
  }

  lemma {:induction false} UpToNulShort(bs: Bytes)
    requires !NulFree(bs)
    ensures |UpToNul(bs)| < |bs|
  {
    if bs[0] != 0 {
      var i :| 0 <= i < |bs| && bs[i] == 0;
      assert bs[1..][i - 1] == 0;
      UpToNulShort(bs[1..]);
    }
  }

  // ------------------------------------------------ the slots of an image

  datatype Content = App(slot: int, base: nat, info: Info) | Data(slot: int, base: nat, magic: Bytes, firmware: bool)
                   | Unreadable(slot: int, base: nat)

  predicate AllZero(bs: Bytes)
  {
    forall i :: 0 <= i < |bs| ==> bs[i] == 0
  }

  /** What the bytes of one slot hold; None if it is blank. */
  function Describe(crc32: Slots.Crc32, raw: Bytes, slot: int, base: nat): Option<Content>
    requires |raw| == STRIDE
  {
    if raw[..4] == [0xff, 0xff, 0xff, 0xff] || AllZero(raw) then None
    else if raw[..4] != FAP1 then Some(Data(slot, base, raw[..4], raw[..4] == FMB1))
    else
      match Parse(crc32, raw[..HDR_SIZE] + Slots.Slice(raw, CODE_OFFSET, UnLe(raw[8..12])), false)
      case Ok(info) => Some(App(slot, base, info))
      case Err(_) => Some(Unreadable(slot, base))
  }

  function ReadSlot(crc32: Slots.Crc32, image: Bytes, slot: int): Result<Option<Content>, Error>
  {
    var base :- SlotBase(slot);
    Ok(if base + STRIDE > |image| then None else Describe(crc32, image[base..base + STRIDE], slot, base))
  }

  /** The bytes of a slot that holds a header and code and nothing else. */
  function SlotImage(header: Bytes, code: Bytes): (r: Bytes)
    requires |header| == HDR_SIZE && |code| <= OVERLAY_MAX
    ensures |r| == STRIDE
  {
    seq(STRIDE, k requires 0 <= k < STRIDE =>
      if k < HDR_SIZE then header[k]
      else if CODE_OFFSET <= k < CODE_OFFSET + |code| then code[k - CODE_OFFSET]
      else 0xff)
  }

  /** The image after an install, and the record of what went in. */
  function Installed(crc32: Slots.Crc32, image: Bytes, slot: int, blob: Bytes,
                     force: bool): Result<(Bytes, Info), Error>
  {
    var info :- Parse(crc32, blob, true);
    var base :- SlotBase(slot);
    if base + STRIDE > |image| then Err(ImageTooSmall)
    else
      var held := ReadSlot(crc32, image, slot).value;
      if !force && held.Some? && !held.value.App? then Err(Occupied)
      else Ok((Overwrite(image, base, SlotImage(blob[..HDR_SIZE], blob[HDR_SIZE..HDR_SIZE + info.codeSize])), info))
  }

  /** The first byte of a slot's 8 KiB. */
  function At(slot: nat): nat { 0x10_2000 + 0x2000 * slot }

  predicate InRange(slot: int) { 0 <= slot <= 15 }

  predicate HasRoom(image: Bytes, slot: nat) { At(slot) + 0x2000 <= |image| }

  predicate Starts(image: Bytes, slot: nat, a: Byte, b: Byte, c: Byte, d: Byte)
    requires HasRoom(image, slot)
  {
    var base := At(slot);
    image[base] == a && image[base + 1] == b && image[base + 2] == c && image[base + 3] == d
  }

  /** Erased at its start, or zero throughout. */
  predicate IsBlank(image: Bytes, slot: nat)
    requires HasRoom(image, slot)
  {
    || Starts(image, slot, 0xff, 0xff, 0xff, 0xff)
    || forall i :: At(slot) <= i < At(slot) + 0x2000 ==> image[i] == 0
  }

  /** An install does not destroy anything but an app. */
  predicate Vacant(image: Bytes, slot: nat)
    requires HasRoom(image, slot)
  {
    IsBlank(image, slot) || Starts(image, slot, 0x46, 0x41, 0x50, 0x31)
  }

  predicate Installable(crc32: Slots.Crc32, image: Bytes, slot: int, blob: Bytes, force: bool)
  {
    Runnable(crc32, blob) && InRange(slot) && HasRoom(image, slot) && (force || Vacant(image, slot))
  }

  /** The first thing in the way of an install. */
  predicate InTheWay(crc32: Slots.Crc32, image: Bytes, slot: int, blob: Bytes, force: bool, e: Error)
  {
    if !Runnable(crc32, blob) then WrongFirst(crc32, blob, e)
    else if !InRange(slot) then e == SlotRange
    else if !HasRoom(image, slot) then e == ImageTooSmall
    else e == Occupied && !force && !Vacant(image, slot)
  }

  /** Byte i of the image after an install. */
  predicate Laid(image: Bytes, slot: nat, blob: Bytes, r: Bytes, i: nat)
    requires |blob| >= 64 && |blob| >= 64 + CodeSize(blob) && i < |r| == |image|
  {
    var k := i - At(slot);
    r[i] == if !(0 <= k < 0x2000) then image[i]
            else if k < 64 then blob[k]
            else if 0x1000 <= k < 0x1000 + CodeSize(blob) then blob[64 + k - 0x1000]
            else 0xff
  }

  lemma SlotParts(image: Bytes, slot: nat)
    requires InRange(slot) && HasRoom(image, slot)
    ensures var raw := image[At(slot)..At(slot) + 0x2000];
            && SlotBase(slot) == Ok(At(slot)) && |raw| == STRIDE
            && (raw[..4] == [0xff, 0xff, 0xff, 0xff] <==> Starts(image, slot, 0xff, 0xff, 0xff, 0xff))
            && (raw[..4] == FAP1 <==> Starts(image, slot, 0x46, 0x41, 0x50, 0x31))
            && (raw[..4] == FMB1 <==> Starts(image, slot, 0x46, 0x4d, 0x42, 0x31))
            && (AllZero(raw) <==> forall i :: At(slot) <= i < At(slot) + 0x2000 ==> image[i] == 0)
  {
    var raw := image[At(slot)..At(slot) + 0x2000];
    ZeroSlice(image, At(slot), raw);
    FourBytes(raw[..4]);
    assert raw[..4][0] == image[At(slot)] && raw[..4][1] == image[At(slot) + 1];
    assert raw[..4][2] == image[At(slot) + 2] && raw[..4][3] == image[At(slot) + 3];
  }

  lemma ZeroSlice(image: Bytes, base: nat, raw: Bytes)
    requires base + 0x2000 <= |image| && raw == image[base..base + 0x2000]
    ensures AllZero(raw) <==> forall i :: base <= i < base + 0x2000 ==> image[i] == 0
  {
    if AllZero(raw) {
      forall i | base <= i < base + 0x2000
        ensures image[i] == 0
      {
        assert image[i] == raw[i - base];
      }
    }
  }

  lemma FourBytes(h: Bytes)
    requires |h| == 4
    ensures h == [0xff, 0xff, 0xff, 0xff] <==> h[0] == h[1] == h[2] == h[3] == 0xff
    ensures h == FAP1 <==> h[0] == 0x46 && h[1] == 0x41 && h[2] == 0x50 && h[3] == 0x31
    ensures h == FMB1 <==> h[0] == 0x46 && h[1] == 0x4d && h[2] == 0x42 && h[3] == 0x31
  {
  }

  /** What a slot reads as, by its first bytes. */
  lemma ReadExactly(crc32: Slots.Crc32, image: Bytes, slot: nat)
    requires InRange(slot)
    ensures ReadSlot(crc32, image, slot).Ok?
    ensures var c := ReadSlot(crc32, image, slot).value;
            if !HasRoom(image, slot) then c == None
            else
              && (c == None <==> IsBlank(image, slot))
              && (c.Some? ==>
                    && (c.value.App? <==> Starts(image, slot, 0x46, 0x41, 0x50, 0x31))
                    && (c.value.Data? ==> (c.value.firmware <==> Starts(image, slot, 0x46, 0x4d, 0x42, 0x31)))
                    && !c.value.Unreadable? && c.value.slot == slot && c.value.base == At(slot))
  {
    if HasRoom(image, slot) {
      SlotParts(image, slot);
      NeverUnreadable(crc32, image[At(slot)..At(slot) + 0x2000], slot, At(slot));
    }
  }

  lemma SlotRanges(slot: int)
    ensures SlotBase(slot).Ok? <==> InRange(slot)
    ensures InRange(slot) ==> SlotBase(slot) == Ok(At(slot))
    ensures !InRange(slot) ==> SlotBase(slot) == Err(SlotRange)
  {
  }

  /** An install is accepted exactly if the blob is an app that the radio runs, and its slot exists, is inside the
      image, and is vacant or the install is forced; otherwise the first thing in the way is named. */
  lemma InstallExactly(crc32: Slots.Crc32, image: Bytes, slot: int, blob: Bytes, force: bool)
    ensures var r := Installed(crc32, image, slot, blob, force);
            && (r.Ok? <==> Installable(crc32, image, slot, blob, force))
            && (r.Err? ==> InTheWay(crc32, image, slot, blob, force, r.error))
  {
    ParseExactly(crc32, blob);
    SlotRanges(slot);
    if Runnable(crc32, blob) && InRange(slot) && HasRoom(image, slot) {
      ReadExactly(crc32, image, slot);
    }
  }

  /** And then the slot holds the header and the code, erased flash around them, and nothing else has changed. */
  lemma InstallLaysExactly(crc32: Slots.Crc32, image: Bytes, slot: int, blob: Bytes, force: bool, r: Bytes, info: Info)
    requires Installed(crc32, image, slot, blob, force) == Ok((r, info))
    ensures Installable(crc32, image, slot, blob, force) && |r| == |image| && Describes(info, blob)
    ensures forall i :: 0 <= i < |r| ==> Laid(image, slot, blob, r, i)
  {
    InstallExactly(crc32, image, slot, blob, force);
    ParseExactly(crc32, blob);
    SlotRanges(slot);
    InstallLays(crc32, image, slot, At(slot), blob, force, r, info);
    LaidByOverwrite(image, slot, blob, r);
  }

  lemma LaidByOverwrite(image: Bytes, slot: nat, blob: Bytes, r: Bytes)
    requires |blob| >= 64 && CodeSize(blob) <= OVERLAY_MAX && |blob| >= 64 + CodeSize(blob) && HasRoom(image, slot)
    requires r == Overwrite(image, At(slot), SlotImage(blob[..64], blob[64..64 + CodeSize(blob)]))
    ensures |r| == |image| && forall i :: 0 <= i < |r| ==> Laid(image, slot, blob, r, i)
  {
  }

  function Erased(image: Bytes, slot: int): Result<Bytes, Error>
  {
    var base :- SlotBase(slot);
    if base + STRIDE > |image| then Err(ImageTooSmall) else Ok(Overwrite(image, base, Slots.Erased(STRIDE)))
  }

  method Blank(image: array<Byte>, base: nat)
    requires base + STRIDE <= image.Length
    modifies image
    ensures image[..] == Overwrite(old(image[..]), base, Slots.Erased(STRIDE))
  {
    var i := base;
    while i < base + STRIDE
      invariant base <= i <= base + STRIDE
      invariant forall k :: 0 <= k < image.Length ==> image[k] == if base <= k < i then 0xff else old(image[k])
    {
      image[i] := 0xff;
      i := i + 1;
    }
  }

  method Put(image: array<Byte>, at: nat, bytes: Bytes)
    requires at + |bytes| <= image.Length
    modifies image
    ensures image[..] == Overwrite(old(image[..]), at, bytes)
  {
    var i := 0;
    while i < |bytes|
      invariant 0 <= i <= |bytes|
      invariant forall k :: 0 <= k < image.Length ==>
                  image[k] == if at <= k < at + i then bytes[k - at] else old(image[k])
    {
      image[at + i] := bytes[i];
      i := i + 1;
    }
  }

  /** Where a blob is to go, or why it is refused. */
  method Admit(crc32: Slots.Crc32, image: array<Byte>, slot: int, blob: Bytes, force: bool)
    returns (r: Result<(nat, Info), Error>)
    ensures match Installed(crc32, image[..], slot, blob, force)
            case Ok(done) => r.Ok? && r.value.1 == done.1 && r.value.0 + STRIDE <= image.Length
            case Err(e) => r == Err(e)
    ensures r.Ok? ==> SlotBase(slot) == Ok(r.value.0) && Parse(crc32, blob, true) == Ok(r.value.1)
  {
    var info := Parse(crc32, blob, true);
    if info.Err? {
      return Err(info.error);
    }
    var base := SlotBase(slot);
    if base.Err? {
      return Err(base.error);
    }
    if base.value + STRIDE > image.Length {
      return Err(ImageTooSmall);
    }
    if !force {
      var held := ReadSlot(crc32, image[..], slot);
      if held.value.Some? && !held.value.value.App? {
        return Err(Occupied);
      }
    }
    r := Ok((base.value, info.value));
  }

  method Install(crc32: Slots.Crc32, image: array<Byte>, slot: int, blob: Bytes, force: bool)
    returns (r: Result<Info, Error>)
    modifies image
    ensures match Installed(crc32, old(image[..]), slot, blob, force)
            case Ok(done) => r == Ok(done.1) && image[..] == done.0
            case Err(e) => r == Err(e) && image[..] == old(image[..])
    ensures r.Ok? <==> Installable(crc32, old(image[..]), slot, blob, force)
    ensures r.Ok? ==> Describes(r.value, blob)
    ensures r.Ok? ==> forall i :: 0 <= i < image.Length ==> Laid(old(image[..]), slot, blob, image[..], i)
    ensures r.Err? ==> InTheWay(crc32, old(image[..]), slot, blob, force, r.error) && image[..] == old(image[..])
  {
    InstallExactly(crc32, image[..], slot, blob, force);
    ghost var done := Installed(crc32, image[..], slot, blob, force);
    if done.Ok? {
      InstallLaysExactly(crc32, image[..], slot, blob, force, done.value.0, done.value.1);
    }
    r := AdmitAndLay(crc32, image, slot, blob, force);
  }

  method AdmitAndLay(crc32: Slots.Crc32, image: array<Byte>, slot: int, blob: Bytes, force: bool)
    returns (r: Result<Info, Error>)
    modifies image
    ensures match Installed(crc32, old(image[..]), slot, blob, force)
            case Ok(done) => r == Ok(done.1) && image[..] == done.0
            case Err(e) => r == Err(e) && image[..] == old(image[..])
  {
    var admitted := Admit(crc32, image, slot, blob, force);
    if admitted.Err? {
      return Err(admitted.error);
    }
    var (base, info) := admitted.value;
    Lay(image, base, blob[..HDR_SIZE], blob[HDR_SIZE..HDR_SIZE + info.codeSize]);
    r := Ok(info);
  }

  method Lay(image: array<Byte>, base: nat, header: Bytes, code: Bytes)
    requires base + STRIDE <= image.Length && |header| == HDR_SIZE && |code| <= OVERLAY_MAX
    modifies image
    ensures image[..] == Overwrite(old(image[..]), base, SlotImage(header, code))
  {
    Blank(image, base);
    Put(image, base, header);
    Put(image, base + CODE_OFFSET, code);
    LaidInThree(old(image[..]), base, header, code);
  }

  /** Blanking, then header, then code, is the slot image laid down at once. */
  lemma LaidInThree(image: Bytes, base: nat, header: Bytes, code: Bytes)
    requires base + STRIDE <= |image| && |header| == HDR_SIZE && |code| <= OVERLAY_MAX
    ensures var laid := Overwrite(Overwrite(image, base, Slots.Erased(STRIDE)), base, header);
            Overwrite(laid, base + CODE_OFFSET, code) ==
            Overwrite(image, base, SlotImage(header, code))
  {
  }

  method Erase(image: array<Byte>, slot: int) returns (r: Result<nat, Error>)
    modifies image
    ensures match Erased(old(image[..]), slot)
            case Ok(b) => r == SlotBase(slot) && image[..] == b
            case Err(e) => r == Err(e) && image[..] == old(image[..])
    ensures if !InRange(slot) then r == Err(SlotRange)
            else if !HasRoom(old(image[..]), slot) then r == Err(ImageTooSmall)
            else
              && r == Ok(At(slot))
              && forall i :: 0 <= i < image.Length ==>
                   image[i] == if At(slot) <= i < At(slot) + 0x2000 then 0xff else old(image[i])
  {
    SlotRanges(slot);
    r := SlotBase(slot);
    if r.Err? {
      return;
    }
    if r.value + STRIDE > image.Length {
      return Err(ImageTooSmall);
    }
    Blank(image, r.value);
  }

  // ------------------------------------------------ what an install leaves behind

  /** A blob parses by its header and the code it announces; what follows is not looked at. */
  lemma ParseLooksNoFurther(crc32: Slots.Crc32, blob: Bytes, other: Bytes, info: Info)
    requires Parse(crc32, blob, true) == Ok(info)
    requires |other| == HDR_SIZE + info.codeSize && other == blob[..HDR_SIZE + info.codeSize]
    ensures Parse(crc32, other, true) == Ok(info)
  {
    assert other[HDR_SIZE..HDR_SIZE + info.codeSize] == blob[HDR_SIZE..HDR_SIZE + info.codeSize];
    UnpackSame(blob, other);
  }

  lemma UnpackSame(h: Bytes, g: Bytes)
    requires |h| >= HDR_SIZE && |g| >= HDR_SIZE && h[..HDR_SIZE] == g[..HDR_SIZE]
    ensures h[0..4] == g[0..4] && Unpack(h) == Unpack(g)
  {
    var f := h[..HDR_SIZE];
    SubSlice(h, 0, f, 6, 7);
    SubSlice(g, 0, f, 6, 7);
    assert h[6] == f[6] == g[6] && h[7] == f[7] == g[7];
    SameFields(h, f);
    SameFields(g, f);
  }

  lemma SameFields(h: Bytes, f: Bytes)
    requires |f| == HDR_SIZE && f <= h
    ensures h[0..4] == f[0..4] && h[4..6] == f[4..6] && h[8..12] == f[8..12] && h[12..16] == f[12..16]
    ensures h[16..18] == f[16..18] && h[18..20] == f[18..20] && h[20..36] == f[20..36] && h[36..52] == f[36..52]
    ensures h[52..56] == f[52..56] && h[56..60] == f[56..60]
  {
    SubSlice(h, 0, f, 0, 4);
    SubSlice(h, 0, f, 4, 6);
    SubSlice(h, 0, f, 8, 12);
    SubSlice(h, 0, f, 12, 16);
    SubSlice(h, 0, f, 16, 18);
    SubSlice(h, 0, f, 18, 20);
    SubSlice(h, 0, f, 20, 36);
    SubSlice(h, 0, f, 36, 52);
    SubSlice(h, 0, f, 52, 56);
    SubSlice(h, 0, f, 56, 60);
  }

  /** An accepted install lays the blob's header and code down, and nothing else. */
  lemma InstallLays(crc32: Slots.Crc32, image: Bytes, slot: int, base: nat, blob: Bytes, force: bool, r: Bytes,
                    info: Info)
    requires Installed(crc32, image, slot, blob, force) == Ok((r, info)) && SlotBase(slot) == Ok(base)
    ensures Parse(crc32, blob, true) == Ok(info) && base + STRIDE <= |image|
    ensures r == Overwrite(image, base, SlotImage(blob[..HDR_SIZE], blob[HDR_SIZE..HDR_SIZE + info.codeSize]))
  {
  }

  /** Byte k of a slot with size bytes of code is neither header nor code. */
  predicate Slack(size: nat, k: int)
  {
    HDR_SIZE <= k < CODE_OFFSET || CODE_OFFSET + size <= k < STRIDE
  }

  lemma SlotHolds(image: Bytes, base: nat, header: Bytes, code: Bytes, r: Bytes)
    requires base + STRIDE <= |image| && |header| == HDR_SIZE && |code| <= OVERLAY_MAX
    requires r == Overwrite(image, base, SlotImage(header, code))
    ensures r[base..base + HDR_SIZE] == header
    ensures r[base + CODE_OFFSET..base + CODE_OFFSET + |code|] == code
    ensures r[base..base + STRIDE] == SlotImage(header, code)
  {
  }

  /** The header and code an accepted install left in the image re-parse, strictly, to the record returned. */
  lemma InstallReparses(crc32: Slots.Crc32, image: Bytes, slot: int, base: nat, blob: Bytes, force: bool, r: Bytes,
                        info: Info)
    requires Installed(crc32, image, slot, blob, force) == Ok((r, info)) && SlotBase(slot) == Ok(base)
    ensures |r| == |image| && base + STRIDE <= |r| && 0 < info.codeSize <= OVERLAY_MAX
    ensures Parse(crc32, r[base..base + HDR_SIZE] + r[base + CODE_OFFSET..base + CODE_OFFSET + info.codeSize], true) ==
            Ok(info)
  {
    InstallLays(crc32, image, slot, base, blob, force, r, info);
    var header, code := blob[..HDR_SIZE], blob[HDR_SIZE..HDR_SIZE + info.codeSize];
    HeaderAndCode(crc32, blob, header, code, info);
    LaidReparses(crc32, image, base, header, code, r, info);
  }

  lemma LaidReparses(crc32: Slots.Crc32, image: Bytes, base: nat, header: Bytes, code: Bytes, r: Bytes, info: Info)
    requires |header| == HDR_SIZE && |code| == info.codeSize <= OVERLAY_MAX && base + STRIDE <= |image|
    requires Parse(crc32, header + code, true) == Ok(info)
    requires r == Overwrite(image, base, SlotImage(header, code))
    ensures Parse(crc32, r[base..base + HDR_SIZE] + r[base + CODE_OFFSET..base + CODE_OFFSET + info.codeSize], true) ==
            Ok(info)
  {
    SlotHolds(image, base, header, code, r);
    var x, y := r[base..base + HDR_SIZE], r[base + CODE_OFFSET..base + CODE_OFFSET + info.codeSize];
    assert x == header && y == code;
  }

  lemma HeaderAndCode(crc32: Slots.Crc32, blob: Bytes, header: Bytes, code: Bytes, info: Info)
    requires Parse(crc32, blob, true) == Ok(info)
    requires header == blob[..HDR_SIZE] && code == blob[HDR_SIZE..HDR_SIZE + info.codeSize]
    ensures Parse(crc32, header + code, true) == Ok(info) && 0 < info.codeSize <= OVERLAY_MAX
  {
    assert header + code == blob[..HDR_SIZE + info.codeSize];
    ParseLooksNoFurther(crc32, blob, header + code, info);
  }

  /** The rest of the slot is erased and nothing outside the slot has changed. */
  lemma InstallErasesRest(crc32: Slots.Crc32, image: Bytes, slot: int, base: nat, blob: Bytes, force: bool, r: Bytes,
                          info: Info, i: nat)
    requires Installed(crc32, image, slot, blob, force) == Ok((r, info)) && SlotBase(slot) == Ok(base) && i < |r|
    ensures |r| == |image|
    ensures Slack(info.codeSize, i - base) ==> r[i] == 0xff
    ensures !(base <= i < base + STRIDE) ==> r[i] == image[i]
  {
    InstallLays(crc32, image, slot, base, blob, force, r, info);
  }

  lemma MagicBytes(h: Bytes)
    requires |h| == 4
    ensures UnLe(h) == MAGIC <==> h == FAP1
  {
    UnLeRoundTrip(h);
    UnLeRoundTrip(FAP1);
    assert UnLe(FAP1) == MAGIC by {
      assert FAP1[1..] == [0x41, 0x50, 0x31] && FAP1[1..][1..] == [0x50, 0x31] && FAP1[1..][1..][1..] == [0x31];
    }
  }

  /** A slot with the app magic is always readable: the lenient parse cannot refuse it. */
  lemma NeverUnreadable(crc32: Slots.Crc32, raw: Bytes, slot: int, base: nat)
    requires |raw| == STRIDE
    ensures var c := Describe(crc32, raw, slot, base);
            c.Some? ==> !c.value.Unreadable? && (c.value.App? <==> raw[..4] == FAP1)
  {
    var blob := raw[..HDR_SIZE] + Slots.Slice(raw, CODE_OFFSET, UnLe(raw[8..12]));
    assert blob[0..4] == raw[..4];
    MagicBytes(raw[..4]);
  }

  /** After an install the slot reads as that app. */
  lemma InstallIsListed(crc32: Slots.Crc32, image: Bytes, slot: int, base: nat, blob: Bytes, force: bool, r: Bytes,
                        info: Info)
    requires Installed(crc32, image, slot, blob, force) == Ok((r, info)) && SlotBase(slot) == Ok(base)
    ensures ReadSlot(crc32, r, slot) == Ok(Some(App(slot, base, info)))
  {
    InstallLays(crc32, image, slot, base, blob, force, r, info);
    var header, code := blob[..HDR_SIZE], blob[HDR_SIZE..HDR_SIZE + info.codeSize];
    SlotHolds(image, base, header, code, r);
    var raw := r[base..base + STRIDE];
    DescribeApp(crc32, raw, slot, base, blob, info);
  }

  lemma DescribeApp(crc32: Slots.Crc32, raw: Bytes, slot: int, base: nat, blob: Bytes, info: Info)
    requires Parse(crc32, blob, true) == Ok(info)
    requires raw == SlotImage(blob[..HDR_SIZE], blob[HDR_SIZE..HDR_SIZE + info.codeSize])
    ensures Describe(crc32, raw, slot, base) == Some(App(slot, base, info))
  {
    assert raw[..HDR_SIZE] == blob[..HDR_SIZE];
    assert raw[..4] == raw[..HDR_SIZE][..4] == blob[0..4];
    MagicBytes(raw[..4]);
    assert raw[0] == 0x46;
    var again := raw[..HDR_SIZE] + Slots.Slice(raw, CODE_OFFSET, UnLe(raw[8..12]));
    assert again[..HDR_SIZE] == blob[..HDR_SIZE];
    UnpackSame(blob, again);
  }

  /** An erased slot reads as blank. */
  lemma EraseIsListed(crc32: Slots.Crc32, image: Bytes, slot: int, r: Bytes)
    requires Erased(image, slot) == Ok(r)
    ensures ReadSlot(crc32, r, slot) == Ok(None)
  {
    var base := SlotBase(slot).value;
    OverwriteHere(image, base, Slots.Erased(STRIDE));
  }

  // ------------------------------------------------ operations on different slots

  datatype Op = DoInstall(slot: int, blob: Bytes, force: bool) | DoErase(slot: int)

  function Perform(crc32: Slots.Crc32, image: Bytes, op: Op): Result<Bytes, Error>
  {
    match op
    case DoInstall(slot, blob, force) =>
      (match Installed(crc32, image, slot, blob, force)
       case Ok(done) => Ok(done.0)
       case Err(e) => Err(e))
    case DoErase(slot) => Erased(image, slot)
  }

  /** What the operation leaves in its slot. */
  function Left(op: Op): (r: Bytes)
    requires op.DoInstall? ==> |op.blob| >= HDR_SIZE
    ensures |r| == STRIDE
  {
    match op
    case DoErase(_) => Slots.Erased(STRIDE)
    case DoInstall(_, blob, _) =>
      var size := UnLe(blob[8..12]);
      SlotImage(blob[..HDR_SIZE],
                if size <= OVERLAY_MAX && HDR_SIZE + size <= |blob| then blob[HDR_SIZE..HDR_SIZE + size] else [])
  }

  /** An accepted operation overwrites its slot with bytes that do not depend on the image. */
  lemma PerformIsOverwrite(crc32: Slots.Crc32, image: Bytes, op: Op, base: nat, r: Bytes)
    requires Perform(crc32, image, op) == Ok(r) && SlotBase(op.slot) == Ok(base)
    ensures op.DoInstall? ==> |op.blob| >= HDR_SIZE
    ensures base + STRIDE <= |image| && r == Overwrite(image, base, Left(op))
  {
  }

  /** Whether an operation is accepted, and how it is refused, depends only on its own slot and the length. */
  lemma AnswerIsLocal(crc32: Slots.Crc32, image: Bytes, other: Bytes, op: Op)
    requires |image| == |other|
    requires SlotBase(op.slot).Ok? && SlotBase(op.slot).value + STRIDE <= |image| ==>
               var base := SlotBase(op.slot).value; image[base..base + STRIDE] == other[base..base + STRIDE]
    ensures ReadSlot(crc32, image, op.slot) == ReadSlot(crc32, other, op.slot)
    ensures Perform(crc32, image, op).Ok? <==> Perform(crc32, other, op).Ok?
    ensures Perform(crc32, image, op).Err? ==> Perform(crc32, other, op) == Perform(crc32, image, op)
  {
    assert SlotBase(op.slot).Ok? ==> ReadSlot(crc32, image, op.slot) == ReadSlot(crc32, other, op.slot);
  }

  lemma SlotsApart(p: int, q: int, a: nat, b: nat)
    requires SlotBase(p) == Ok(a) && SlotBase(q) == Ok(b) && p != q
    ensures a + STRIDE <= b || b + STRIDE <= a
  {
  }

  lemma OtherSlotBytes(crc32: Slots.Crc32, image: Bytes, op: Op, r: Bytes, slot: int, other: nat)
    requires Perform(crc32, image, op) == Ok(r) && SlotBase(slot) == Ok(other) && slot != op.slot
    ensures |r| == |image|
    ensures other + STRIDE <= |image| ==> r[other..other + STRIDE] == image[other..other + STRIDE]
  {
    var base := SlotBase(op.slot).value;
    PerformIsOverwrite(crc32, image, op, base, r);
    SlotsApart(op.slot, slot, base, other);
    BesideSlot(image, base, Left(op), other);
  }

  lemma BesideSlot(image: Bytes, base: nat, left: Bytes, other: nat)
    requires |left| == STRIDE && base + STRIDE <= |image| && (base + STRIDE <= other || other + STRIDE <= base)
    ensures other + STRIDE <= |image| ==>
              Overwrite(image, base, left)[other..other + STRIDE] == image[other..other + STRIDE]
  {
    if other + STRIDE <= |image| {
      OverwriteElsewhere(image, base, left, other, other + STRIDE);
    }
  }

  lemma KeepsLength(crc32: Slots.Crc32, image: Bytes, op: Op, r: Bytes)
    requires Perform(crc32, image, op) == Ok(r)
    ensures |r| == |image|
  {
    PerformIsOverwrite(crc32, image, op, SlotBase(op.slot).value, r);
  }

  /** An accepted operation leaves what any other slot holds, and the answer to any operation on it, as it was. */
  lemma OtherSlotUnchanged(crc32: Slots.Crc32, image: Bytes, op: Op, r: Bytes, q: Op)
    requires Perform(crc32, image, op) == Ok(r) && q.slot != op.slot
    ensures |r| == |image| && ReadSlot(crc32, r, q.slot) == ReadSlot(crc32, image, q.slot)
    ensures Perform(crc32, r, q).Ok? <==> Perform(crc32, image, q).Ok?
    ensures Perform(crc32, image, q).Err? ==> Perform(crc32, r, q) == Perform(crc32, image, q)
  {
    KeepsLength(crc32, image, op, r);
    if SlotBase(q.slot).Ok? {
      OtherSlotBytes(crc32, image, op, r, q.slot, SlotBase(q.slot).value);
    }
    AnswerIsLocal(crc32, image, r, q);
  }

  /** Accepted operations on different slots commute. */
  lemma OperationsCommute(crc32: Slots.Crc32, image: Bytes, p: Op, q: Op, afterP: Bytes, afterQ: Bytes)
    requires Perform(crc32, image, p) == Ok(afterP) && Perform(crc32, image, q) == Ok(afterQ) && p.slot != q.slot
    ensures Perform(crc32, afterP, q).Ok? && Perform(crc32, afterP, q) == Perform(crc32, afterQ, p)
  {
    OtherSlotUnchanged(crc32, image, p, afterP, q);
    OtherSlotUnchanged(crc32, image, q, afterQ, p);
    var a, b := SlotBase(p.slot).value, SlotBase(q.slot).value;
    PerformIsOverwrite(crc32, image, p, a, afterP);
    PerformIsOverwrite(crc32, image, q, b, afterQ);
    PerformIsOverwrite(crc32, afterP, q, b, Perform(crc32, afterP, q).value);
    PerformIsOverwrite(crc32, afterQ, p, a, Perform(crc32, afterQ, p).value);
    SlotsApart(p.slot, q.slot, a, b);
    OverwriteCommutes(image, a, Left(p), b, Left(q));
  }

  // ------------------------------------------------ the list of apps

  predicate Holds(crc32: Slots.Crc32, image: Bytes, slot: int, c: Content)
  {
    ReadSlot(crc32, image, slot) == Ok(Some(c))
  }

  /** The values that are there, in order. */
  function Present(held: seq<Option<Content>>): seq<Content>
  {
    if held == [] then [] else (if held[0].Some? then [held[0].value] else []) + Present(held[1..])
  }

  function AllSlots(crc32: Slots.Crc32, image: Bytes): (held: seq<Option<Content>>)
    ensures |held| == SLOT_COUNT
    ensures forall i :: 0 <= i < SLOT_COUNT ==> Ok(held[i]) == ReadSlot(crc32, image, i)
  {
    seq(SLOT_COUNT, i requires 0 <= i < SLOT_COUNT => ReadSlot(crc32, image, i).value)
  }

  function ListApps(crc32: Slots.Crc32, image: Bytes): seq<Content>
  {
    Present(AllSlots(crc32, image))
  }

  /** Entry i, if there, is about slot first + i. */
  predicate Numbered(held: seq<Option<Content>>, first: int)
  {
    forall i :: 0 <= i < |held| && held[i].Some? ==> held[i].value.slot == first + i
  }

  lemma {:induction false} PresentExactly(held: seq<Option<Content>>, first: int, c: Content)
    requires Numbered(held, first)
    ensures c in Present(held) <==> first <= c.slot < first + |held| && held[c.slot - first] == Some(c)
  {
    if held != [] {
      var rest := held[1..];
      PresentExactly(rest, first + 1, c);
      assert c in Present(held) <==> held[0] == Some(c) || c in Present(rest);
      if c.slot == first {
        assert c !in Present(rest);
      } else if first < c.slot < first + |held| {
        assert rest[c.slot - first - 1] == held[c.slot - first];
      }
    }
  }

  lemma {:induction false} PresentInOrder(held: seq<Option<Content>>, first: int, i: nat, j: nat)
    requires Numbered(held, first) && i < j < |Present(held)|
    ensures Present(held)[i].slot < Present(held)[j].slot
  {
    var rest := Present(held[1..]);
    if held[0].None? {
      PresentInOrder(held[1..], first + 1, i, j);
    } else if i == 0 {
      assert rest[j - 1] in rest;
      PresentExactly(held[1..], first + 1, rest[j - 1]);
    } else {
      PresentInOrder(held[1..], first + 1, i - 1, j - 1);
    }
  }

  lemma SlotNamesItself(crc32: Slots.Crc32, image: Bytes, slot: int, c: Content)
    requires Holds(crc32, image, slot, c)
    ensures 0 <= slot < SLOT_COUNT && c.slot == slot
  {
  }

  lemma SlotsNumbered(crc32: Slots.Crc32, image: Bytes, held: seq<Option<Content>>)
    requires held == AllSlots(crc32, image)
    ensures Numbered(held, 0)
  {
    forall i | 0 <= i < |held| && held[i].Some?
      ensures held[i].value.slot == i
    {
      SlotNamesItself(crc32, image, i, held[i].value);
    }
  }

  /** The list holds exactly what the slots hold, each slot at most once, in slot order. */
  lemma ListIsExact(crc32: Slots.Crc32, image: Bytes, c: Content, i: nat, j: nat)
    ensures c in ListApps(crc32, image) <==> Holds(crc32, image, c.slot, c)
    ensures i < j < |ListApps(crc32, image)| ==> ListApps(crc32, image)[i].slot < ListApps(crc32, image)[j].slot
  {
    var held := AllSlots(crc32, image);
    SlotsNumbered(crc32, image, held);
    PresentExactly(held, 0, c);
    if Holds(crc32, image, c.slot, c) {
      SlotNamesItself(crc32, image, c.slot, c);
    }
    if i < j < |ListApps(crc32, image)| {
      PresentInOrder(held, 0, i, j);
    }
  }

  /** After an accepted operation the list is as before for every other slot, and shows the new app, if any. */
  lemma ListAfter(crc32: Slots.Crc32, image: Bytes, op: Op, r: Bytes, c: Content)
    requires Perform(crc32, image, op) == Ok(r)
    ensures c.slot != op.slot ==> (c in ListApps(crc32, r) <==> c in ListApps(crc32, image))
    ensures c.slot == op.slot ==>
              (c in ListApps(crc32, r) <==>
               op.DoInstall? && c == App(op.slot, SlotBase(op.slot).value, Parse(crc32, op.blob, true).value))
  {
    ListIsExact(crc32, r, c, 0, 0);
    ListIsExact(crc32, image, c, 0, 0);
    if Holds(crc32, r, c.slot, c) {
      SlotNamesItself(crc32, r, c.slot, c);
    }
    if Holds(crc32, image, c.slot, c) {
      SlotNamesItself(crc32, image, c.slot, c);
    }
    if c.slot != op.slot {
      OtherSlotUnchanged(crc32, image, op, r, DoErase(c.slot));
    } else {
      OwnSlotAfter(crc32, image, op, r);
    }
  }

  lemma OwnSlotAfter(crc32: Slots.Crc32, image: Bytes, op: Op, r: Bytes)
    requires Perform(crc32, image, op) == Ok(r)
    ensures op.DoErase? ==> ReadSlot(crc32, r, op.slot) == Ok(None)
    ensures op.DoInstall? ==> Parse(crc32, op.blob, true).Ok? && SlotBase(op.slot).Ok?
    ensures op.DoInstall? ==>
              Holds(crc32, r, op.slot, App(op.slot, SlotBase(op.slot).value, Parse(crc32, op.blob, true).value))
  {
    match op
    case DoErase(slot) => EraseIsListed(crc32, image, slot, r);
    case DoInstall(slot, blob, force) =>
      var info := Installed(crc32, image, slot, blob, force).value.1;
      InstallLays(crc32, image, slot, SlotBase(slot).value, blob, force, r, info);
      InstallIsListed(crc32, image, slot, SlotBase(slot).value, blob, force, r, info);
  }

  // ------------------------------------------------ apps beside firmware slots

  lemma OverwriteBesideFirmware(crc32: Slots.Crc32, image: Bytes, op: Op, base: nat, left: Bytes, fw: Slots.Op,
                                afterFw: Bytes)
    requires Slots.Accepted(fw) && Slots.Perform(crc32, image, fw) == Ok(afterFw) && Slots.Hi(fw) <= |image|
    requires SlotBase(op.slot) == Ok(base) && base + STRIDE <= |image| && |left| == STRIDE
    ensures |afterFw| == |image|
    ensures Slots.Perform(crc32, Overwrite(image, base, left), fw) == Ok(Overwrite(afterFw, base, left))
  {
    var es := Slots.EditsOf(crc32, fw);
    Slots.PerformIsEdits(crc32, image, fw, es);
    Slots.PerformIsEdits(crc32, Overwrite(image, base, left), fw, es);
    Slots.EditsInWindow(crc32, fw, es);
    ApplyOne(image, base, left);
    ApplyOne(afterFw, base, left);
    EditsCommute(image, es, Slots.Lo(fw), Slots.Hi(fw), [Edit(base, left)], base, base + STRIDE);
  }

  lemma FirmwareLeavesApps(crc32: Slots.Crc32, image: Bytes, base: nat, fw: Slots.Op, afterFw: Bytes)
    requires Slots.Accepted(fw) && Slots.Perform(crc32, image, fw) == Ok(afterFw) && Slots.Hi(fw) <= |image|
    requires REGION_BASE <= base && base + STRIDE <= |image|
    ensures |afterFw| == |image| && image[base..base + STRIDE] == afterFw[base..base + STRIDE]
  {
    Slots.OnlyItsWindow(crc32, image, fw, afterFw, 0);
    forall i | base <= i < base + STRIDE
      ensures image[i] == afterFw[i]
    {
      Slots.OnlyItsWindow(crc32, image, fw, afterFw, i);
    }
  }

  lemma AppAfterFirmware(crc32: Slots.Crc32, image: Bytes, op: Op, afterOp: Bytes, afterFw: Bytes, base: nat,
                         left: Bytes)
    requires Perform(crc32, image, op) == Ok(afterOp) && SlotBase(op.slot) == Ok(base) && base + STRIDE <= |image|
    requires |afterFw| == |image| && image[base..base + STRIDE] == afterFw[base..base + STRIDE]
    requires (op.DoInstall? ==> |op.blob| >= HDR_SIZE) && left == Left(op)
    ensures afterOp == Overwrite(image, base, left)
    ensures Perform(crc32, afterFw, op) == Ok(Overwrite(afterFw, base, left))
  {
    PerformIsOverwrite(crc32, image, op, base, afterOp);
    AnswerIsLocal(crc32, image, afterFw, op);
    PerformIsOverwrite(crc32, afterFw, op, base, Perform(crc32, afterFw, op).value);
  }

  /** Operations on the app region commute with operations on the firmware slots: neither reaches the other. */
  lemma CommutesWithFirmware(crc32: Slots.Crc32, image: Bytes, op: Op, afterOp: Bytes, fw: Slots.Op, afterFw: Bytes)
    requires Slots.Accepted(fw) && Slots.Hi(fw) <= |image| && Slots.Perform(crc32, image, fw) == Ok(afterFw)
    requires Perform(crc32, image, op) == Ok(afterOp)
    ensures Perform(crc32, afterFw, op).Ok?
    ensures Slots.Perform(crc32, afterOp, fw) == Ok(Perform(crc32, afterFw, op).value)
  {
    var base := SlotBase(op.slot).value;
    PerformIsOverwrite(crc32, image, op, base, afterOp);
    var left := Left(op);
    FirmwareLeavesApps(crc32, image, base, fw, afterFw);
    AppAfterFirmware(crc32, image, op, afterOp, afterFw, base, left);
    OverwriteBesideFirmware(crc32, image, op, base, left, fw, afterFw);
  }
}
