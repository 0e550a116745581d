/** The host's view of the panel: hexadecimal to bytes to pixels. */
module LcdView {
  import opened Bits
  import opened Wrappers
  import opened Panel

  const HEIGHT: nat := 64

  // ------------------------------------------------ reading the hexadecimal

  function DigitValue(c: char): Option<nat>
  {
    if '0' <= c <= '9' then Some(c as nat - '0' as nat)
    else if 'a' <= c <= 'f' then Some(10 + c as nat - 'a' as nat)
    else if 'A' <= c <= 'F' then Some(10 + c as nat - 'A' as nat)
    else None
  }

  predicate Space(c: char) { c == ' ' || '\t' <= c <= '\r' }

  /** bytes.fromhex: pairs of digits, with white space before, between and after them. */
  function FromHex(s: string): Option<seq<Byte>>
    decreases |s|
  {
    if s == [] then Some([])
    else if Space(s[0]) then FromHex(s[1..])
    else if |s| == 1 then None
    else
      match (DigitValue(s[0]), DigitValue(s[1]), FromHex(s[2..]))
      case (Some(h), Some(l), Some(rest)) => if h * 16 + l < 256 then Some([h * 16 + l] + rest) else None
      case _ => None
  }

  lemma DigitRoundTrip(n: nat)
    requires n < 16
    ensures DigitValue(Digit(n)) == Some(n) && !Space(Digit(n))
  {
    if n < 10 {
      assert DIGITS[n] == '0' + n as char;
    } else {
      assert DIGITS[n] == 'a' + (n - 10) as char;
    }
  }

  lemma {:induction false} HexRoundTrip(bs: seq<Byte>)
    ensures FromHex(ToHex(bs)) == Some(bs)
  {
    if bs != [] {
      HexRoundTrip(bs[1..]);
      HexOneMore(bs[0], ToHex(bs[1..]), bs[1..]);
      assert bs == [bs[0]] + bs[1..];
    }
  }

  lemma HexOneMore(b: Byte, s: string, rest: seq<Byte>)
    requires FromHex(s) == Some(rest)
    ensures FromHex([Digit(b / 16), Digit(b % 16)] + s) == Some([b] + rest)
  {
    DigitRoundTrip(b / 16);
    DigitRoundTrip(b % 16);
    assert ([Digit(b / 16), Digit(b % 16)] + s)[2..] == s;
  }

  function Spaces(s: string): nat
  {
    if s == [] then 0 else (if Space(s[0]) then 1 else 0) + Spaces(s[1..])
  }

  /** What is accepted holds two characters for every byte, and white space. */
  lemma {:induction false} HexLength(s: string)
    requires FromHex(s).Some?
    ensures |s| == 2 * |FromHex(s).value| + Spaces(s)
    decreases |s|
  {
    if s != [] {
      if Space(s[0]) {
        HexLength(s[1..]);
      } else {
        HexLength(s[2..]);
        assert s[1..][1..] == s[2..] && !Space(s[1]);
      }
    }
  }

  // ------------------------------------------------ pixels

  /** The byte shown at page, column: the status line is page 0, the frame pages 1 to 7. */
  function Source(status: seq<Byte>, frame: seq<Byte>, page: nat, col: nat): Byte
    requires |status| == WIDTH && |frame| == 7 * WIDTH && page < PAGES && col < WIDTH
  {
    if page == 0 then status[col] else frame[(page - 1) * WIDTH + col]
  }

  function Lit(b: Byte, bit: nat): nat
  {
    if Bit(b, bit) then 1 else 0
  }

  lemma LowDigits(x: nat, k: nat)
    requires k == 0
    ensures Bit(x, k) == (x % 2 == 1) && Bit(x, k + 1) == (x / 2 % 2 == 1)
    ensures Bit(x, k + 2) == (x / 4 % 2 == 1) && Bit(x, k + 3) == (x / 8 % 2 == 1)
  {
    var y, z := x / 2, x / 4;
    assert Bit(x, k + 1) == Bit(y, k) && Bit(x, k + 2) == Bit(y, k + 1) && Bit(x, k + 3) == Bit(y, k + 2);
    assert y / 2 == z && Bit(y, k + 1) == Bit(z, k) && Bit(y, k + 2) == Bit(z, k + 1);
    assert Bit(z, k + 1) == Bit(z / 2, k) && z / 2 == x / 8;
  }

  lemma LowDigit(x: nat, k: nat)
    requires k < 4
    ensures Bit(x, k) == ((if k == 0 then x else if k == 1 then x / 2 else if k == 2 then x / 4 else x / 8) % 2 == 1)
  {
    var low: nat := 0;
    LowDigits(x, low);
    assert k == low || k == low + 1 || k == low + 2 || k == low + 3;
  }

  /** The eight pixels of a column, from the top, are the binary digits of its byte, least significant first. */
  lemma ColumnDigits(b: Byte, k: nat)
    requires k < 8
    ensures Lit(b, k) == [b, b / 2, b / 4, b / 8, b / 16, b / 32, b / 64, b / 128][k] % 2
  {
    if k < 4 {
      LowDigit(b, k);
    } else {
      NibbleUp(b, k - 4);
      LowDigit(b / 16, k - 4);
    }
  }

  /** unpack: column bytes, least significant bit on top, to rows of pixels. */
  method Unpack(status: seq<Byte>, frame: seq<Byte>) returns (pixels: array2<nat>)
    requires |status| == WIDTH && |frame| == 7 * WIDTH
    ensures fresh(pixels) && pixels.Length0 == HEIGHT && pixels.Length1 == WIDTH
    ensures forall y, x :: 0 <= y < HEIGHT && 0 <= x < WIDTH ==>
              pixels[y, x] == Lit(Source(status, frame, y / 8, x), y % 8)
  {
    pixels := new nat[HEIGHT, WIDTH]((y, x) => 0);
    for page := 0 to PAGES
      invariant forall y, x :: 0 <= y < HEIGHT && 0 <= x < WIDTH ==>
                  pixels[y, x] == if y / 8 < page then Lit(Source(status, frame, y / 8, x), y % 8) else 0
    {
      for col := 0 to WIDTH
        invariant forall y, x :: 0 <= y < HEIGHT && 0 <= x < WIDTH ==>
                    pixels[y, x] == if y / 8 < page || (y / 8 == page && x < col)
                                    then Lit(Source(status, frame, y / 8, x), y % 8) else 0
      {
        var byte := if page == 0 then status[col] else frame[(page - 1) * WIDTH..page * WIDTH][col];
        UnpackColumn(pixels, page, col, byte);
      }
    }
  }

  method UnpackColumn(pixels: array2<nat>, page: nat, col: nat, byte: Byte)
    requires pixels.Length0 == HEIGHT && pixels.Length1 == WIDTH && page < PAGES && col < WIDTH
    requires forall y :: page * 8 <= y < page * 8 + 8 ==> pixels[y, col] == 0
    modifies pixels
    ensures forall y, x :: 0 <= y < HEIGHT && 0 <= x < WIDTH ==>
              pixels[y, x] == if y / 8 == page && x == col then Lit(byte, y % 8) else old(pixels[y, x])
  {
    for bit := 0 to 8
      invariant forall y, x :: 0 <= y < HEIGHT && 0 <= x < WIDTH ==>
                  pixels[y, x] ==
                  if y / 8 == page && x == col && y % 8 < bit then Lit(byte, y % 8) else old(pixels[y, x])
    {
      if Bit(byte, bit) {
        pixels[page * 8 + bit, col] := 1;
      }
    }
  }

  /** The pixel the glass shows: inverted if the panel is. */
  function Shown(s: Lcd, y: nat, x: nat): nat
    requires s.Valid() && y < HEIGHT && x < WIDTH
  {
    var v := Lit(s.gram[y / 8 * WIDTH + x], y % 8);
    if s.invert then 1 - v else v
  }

  /** panel_pixels: from the hexadecimal the panel exports. Wrong digits or a wrong length are
      refused. */
  method PanelPixels(hex: string, invert: bool) returns (r: Option<array2<nat>>)
    ensures r.Some? <==> FromHex(hex).Some? && |FromHex(hex).value| == PAGES * WIDTH
    ensures r.Some? ==>
              && r.value.Length0 == HEIGHT && r.value.Length1 == WIDTH
              && forall y, x :: 0 <= y < HEIGHT && 0 <= x < WIDTH ==>
                   r.value[y, x] ==
                   var v := Lit(FromHex(hex).value[y / 8 * WIDTH + x], y % 8); if invert then 1 - v else v
  {
    var gram := FromHex(hex);
    if gram.None? || |gram.value| != PAGES * WIDTH {
      return None;
    }
    var pixels := Unpack(gram.value[..WIDTH], gram.value[WIDTH..]);
    if invert {
      var flipped := new nat[HEIGHT, WIDTH]((y, x) reads pixels
        requires 0 <= y < HEIGHT && 0 <= x < WIDTH && pixels.Length0 == HEIGHT && pixels.Length1 == WIDTH =>
        if pixels[y, x] == 0 then 1 else 0);
      return Some(flipped);
    }
    return Some(pixels);
  }

  // ------------------------------------------------ what a run of data bytes leaves in a page

  /** The byte at glass column x after bs was sent from controller column c: the last one whose
      column, counted around the 132 drivers, is x + 4, or what was there. */
  function Landed(before: Byte, c: nat, bs: seq<Byte>, x: nat): Byte
  {
    if bs == [] then before
    else if (c + |bs| - 1) % DRIVERS == x + MARGIN then bs[|bs| - 1]
    else Landed(before, c, bs[..|bs| - 1], x)
  }

  /** Data bytes update exactly the current page, last write winning, and move the column on. */
  lemma {:induction false} DataLands(s: Lcd, bs: seq<Byte>)
    requires s.Valid() && s.selected && s.a0 && s.col < DRIVERS
    ensures var r := XferAll(s, bs);
            && r == s.(gram := r.gram, col := r.col) && r.col == (s.col + |bs|) % DRIVERS
            && forall i :: 0 <= i < PAGES * WIDTH ==>
                 r.gram[i] == if i / WIDTH == s.page then Landed(s.gram[i], s.col, bs, i % WIDTH) else s.gram[i]
    decreases |bs|
  {
    if bs != [] {
      var front := bs[..|bs| - 1];
      DataLands(s, front);
      LandOne(s, XferAll(s, front), bs);
    }
  }

  lemma NextColumn(c: nat, n: nat)
    ensures ((c + n) % DRIVERS + 1) % DRIVERS == (c + n + 1) % DRIVERS
  {
  }

  lemma LandOne(s: Lcd, t: Lcd, bs: seq<Byte>)
    requires s.Valid() && t.Valid() && bs != [] && t.selected && t.a0 && s.col < DRIVERS
    requires t == s.(gram := t.gram, col := (s.col + (|bs| - 1)) % DRIVERS)
    requires forall i :: 0 <= i < PAGES * WIDTH ==>
               t.gram[i] ==
               if i / WIDTH == s.page then Landed(s.gram[i], s.col, bs[..|bs| - 1], i % WIDTH) else s.gram[i]
    ensures var r := Xfer(t, bs[|bs| - 1]);
            && r == s.(gram := r.gram, col := (s.col + |bs|) % DRIVERS)
            && forall i :: 0 <= i < PAGES * WIDTH ==>
                 r.gram[i] == if i / WIDTH == s.page then Landed(s.gram[i], s.col, bs, i % WIDTH) else s.gram[i]
  {
    NextColumn(s.col, |bs| - 1);
    var r := Xfer(t, bs[|bs| - 1]);
    forall i | 0 <= i < PAGES * WIDTH
      ensures r.gram[i] == if i / WIDTH == s.page then Landed(s.gram[i], s.col, bs, i % WIDTH) else s.gram[i]
    {
      assert i == i / WIDTH * WIDTH + i % WIDTH;
    }
  }

  /** A full row from column 4 lands byte for byte. */
  lemma {:induction false} FullRow(before: Byte, bs: seq<Byte>, x: nat)
    requires |bs| <= WIDTH && x < WIDTH
    ensures Landed(before, MARGIN, bs, x) == if x < |bs| then bs[x] else before
    decreases |bs|
  {
    if bs != [] {
      FullRow(before, bs[..|bs| - 1], x);
    }
  }

  // ------------------------------------------------ a blit

  /** Select a page and a column: three command bytes, the column in two nibbles. */
  function Address(s: Lcd, page: nat, c: nat): Lcd
    requires s.Valid() && page < PAGES && c < DRIVERS
  {
    XferAll(s.(a0 := false), [0xb0 + page, 0x10 + c / 16, c % 16]).(a0 := true)
  }

  lemma AddressSets(s: Lcd, page: nat, c: nat)
    requires s.Valid() && s.selected && !s.expectContrast && page < PAGES && c < DRIVERS
    ensures Address(s, page, c) == s.(a0 := true, page := page, col := c)
  {
    var cs: seq<Byte> := [0xb0 + page, 0x10 + c / 16, c % 16];
    var t := s.(a0 := false);
    ThreeSent(t, cs[0], cs[1], cs[2]);
    PageCommand(t, page);
    var u := t.(page := page);
    ColumnCommands(u, c / 16, c % 16);
  }

  lemma PageCommand(t: Lcd, page: nat)
    requires t.Valid() && t.selected && !t.a0 && !t.expectContrast && page < PAGES
    ensures Xfer(t, 0xb0 + page) == t.(page := page)
  {
  }

  lemma ColumnCommands(t: Lcd, high: nat, low: nat)
    requires t.Valid() && t.selected && !t.a0 && !t.expectContrast && low < 16 && high * 16 + low < DRIVERS
    ensures Xfer(Xfer(t, 0x10 + high), low) == t.(col := high * 16 + low)
  {
    var u := Xfer(t, 0x10 + high);
    assert u == t.(col := t.col % 16 + high * 16);
  }

  lemma ThreeSent(t: Lcd, a: Byte, b: Byte, c: Byte)
    requires t.Valid()
    ensures XferAll(t, [a, b, c]) == Xfer(Xfer(Xfer(t, a), b), c)
  {
    assert [a, b, c][..2] == [a, b] && [a, b][..1] == [a] && [a][..0] == [];
    assert XferAll(t, [a]) == Xfer(t, a);
    assert XferAll(t, [a, b]) == Xfer(Xfer(t, a), b);
  }

  /** The first n pages sent, each from column 4. */
  function Blit(s: Lcd, pages: seq<seq<Byte>>): (r: Lcd)
    requires s.Valid() && |pages| <= PAGES
    ensures r.Valid()
  {
    if pages == [] then s
    else
      var n := |pages| - 1;
      var t := Blit(s, pages[..n]);
      XferAll(Address(t, n, MARGIN), pages[n])
  }

  lemma {:induction false} BlitFills(s: Lcd, pages: seq<seq<Byte>>)
    requires s.Valid() && s.selected && !s.expectContrast && |pages| <= PAGES
    requires forall p :: 0 <= p < |pages| ==> |pages[p]| == WIDTH
    ensures var r := Blit(s, pages);
            && r.selected && !r.expectContrast && r.invert == s.invert
            && forall i :: 0 <= i < PAGES * WIDTH ==>
                 r.gram[i] == if i / WIDTH < |pages| then pages[i / WIDTH][i % WIDTH] else s.gram[i]
    decreases |pages|
  {
    if pages != [] {
      var n := |pages| - 1;
      var t := Blit(s, pages[..n]);
      BlitFills(s, pages[..n]);
      AddressSets(t, n, MARGIN);
      DataLands(Address(t, n, MARGIN), pages[n]);
      forall i | 0 <= i < PAGES * WIDTH && i / WIDTH == n
        ensures Landed(t.gram[i], MARGIN, pages[n], i % WIDTH) == pages[n][i % WIDTH]
      {
        FullRow(t.gram[i], pages[n], i % WIDTH);
      }
    }
  }

  /** From the driver's bytes to the display RAM: pixel (y, x) is bit y mod 8 of the byte sent for page y / 8,
      column x, inverted if the panel is. */
  lemma BlitIsSeen(s: Lcd, pages: seq<seq<Byte>>, y: nat, x: nat)
    requires s.Valid() && s.selected && !s.expectContrast && |pages| == PAGES
    requires forall p :: 0 <= p < PAGES ==> |pages[p]| == WIDTH
    requires y < HEIGHT && x < WIDTH
    ensures var r := Blit(s, pages);
            && r.invert == s.invert && FromHex(ToHex(r.gram)) == Some(r.gram)
            && Shown(r, y, x) == Pixel(pages, s.invert, y, x)
  {
    BlitFills(s, pages);
    HexRoundTrip(Blit(s, pages).gram);
    assert (y / 8 * WIDTH + x) / WIDTH == y / 8 && (y / 8 * WIDTH + x) % WIDTH == x;
  }

  function Pixel(pages: seq<seq<Byte>>, invert: bool, y: nat, x: nat): nat
    requires |pages| == PAGES && y < HEIGHT && x < WIDTH && |pages[y / 8]| == WIDTH
  {
    if invert then 1 - Lit(pages[y / 8][x], y % 8) else Lit(pages[y / 8][x], y % 8)
  }

  method SendAll(panel: St7565, bs: seq<Byte>)
    requires panel.Valid()
    modifies panel, panel.gram
    ensures panel.Valid() && panel.State() == XferAll(old(panel.State()), bs)
  {
    for i := 0 to |bs|
      invariant panel.Valid() && panel.State() == XferAll(old(panel.State()), bs[..i])
    {
      var reply := panel.Transfer(bs[i]);
      assert bs[..i + 1][..i] == bs[..i];
    }
    assert bs[..|bs|] == bs;
  }

  method SendPage(panel: St7565, page: nat, bs: seq<Byte>)
    requires panel.Valid() && page < PAGES
    modifies panel, panel.gram
    ensures panel.Valid() && panel.State() == XferAll(Address(old(panel.State()), page, MARGIN), bs)
  {
    panel.SetA0(false);
    SendAll(panel, [0xb0 + page, 0x10 + MARGIN / 16, MARGIN % 16]);
    panel.SetA0(true);
    SendAll(panel, bs);
  }

  /** The driver sends eight pages; the host asks for the display RAM and reads it: it sees, pixel by pixel, what
      was sent. */
  method BlitAndRead(panel: St7565, pages: seq<seq<Byte>>) returns (pixels: array2<nat>)
    requires panel.Valid() && panel.selected && !panel.expectContrast
    requires |pages| == PAGES && forall p :: 0 <= p < PAGES ==> |pages[p]| == WIDTH
    modifies panel, panel.gram
    ensures pixels.Length0 == HEIGHT && pixels.Length1 == WIDTH
    ensures forall y: nat, x: nat :: y < HEIGHT && x < WIDTH ==>
              pixels[y, x] == Pixel(pages, old(panel.invert), y, x)
  {
    ghost var s := panel.State();
    for n := 0 to PAGES
      invariant panel.Valid() && panel.State() == Blit(s, pages[..n])
    {
      SendPage(panel, n, pages[n]);
      assert pages[..n + 1][..n] == pages[..n];
    }
    assert pages[..PAGES] == pages;
    var hex := panel.GetGram();
    BlitIsSeen(s, pages, 0, 0);
    var read := PanelPixels(hex, panel.invert);
    pixels := read.value;
    forall y: nat, x: nat | y < HEIGHT && x < WIDTH
      ensures pixels[y, x] == Pixel(pages, s.invert, y, x)
    {
      BlitIsSeen(s, pages, y, x);
    }
  }
}
