/** The ST7565 display controller: commands and pixel data on one wire, and its display RAM. */
module Panel {
  import opened Bits

  const PAGES: nat := 8
  const WIDTH: nat := 128
  const DRIVERS: nat := 132
  const MARGIN: nat := 4

  datatype Lcd = Lcd(a0: bool, selected: bool, expectContrast: bool, contrast: Byte, page: nat, col: nat,
                     gram: seq<Byte>, invert: bool, displayOn: bool, segReverse: bool, comReverse: bool)
  {
    ghost predicate Valid() { page < PAGES && col < 256 && |gram| == PAGES * WIDTH }
  }

  /** A pixel byte is stored if its column is on the glass; the column counter runs 0..131. */
  function Data(s: Lcd, out: Byte): (r: Lcd)
    requires s.Valid()
    ensures r.Valid()
  {
    var g := if MARGIN <= s.col < DRIVERS then s.gram[s.page * WIDTH + s.col - MARGIN := out] else s.gram;
    s.(gram := g, col := (s.col + 1) % DRIVERS)
  }

  function Command(s: Lcd, out: Byte): (r: Lcd)
    requires s.Valid()
    ensures r.Valid()
  {
    if s.expectContrast then s.(contrast := out, expectContrast := false)
    else if 0xb0 <= out <= 0xb7 then s.(page := out % 8)
    else if out <= 0x0f then s.(col := s.col / 16 * 16 + out)
    else if out <= 0x1f then s.(col := s.col % 16 + out % 16 * 16)
    else
      match out
      case 0xa6 => s.(invert := false)
      case 0xa7 => s.(invert := true)
      case 0xa0 => s.(segReverse := false)
      case 0xa1 => s.(segReverse := true)
      case 0xc0 => s.(comReverse := false)
      case 0xc8 => s.(comReverse := true)
      case 0xae => s.(displayOn := false)
      case 0xaf => s.(displayOn := true)
      case 0x81 => s.(expectContrast := true)
      case 0xe2 => s.(invert := false, displayOn := false, contrast := 0, expectContrast := false)
      case _ => s
  }

  /** st7565_xfer */
  function Xfer(s: Lcd, out: Byte): (r: Lcd)
    requires s.Valid()
    ensures r.Valid() && r.a0 == s.a0 && r.selected == s.selected
  {
    if !s.selected then s else if s.a0 then Data(s, out) else Command(s, out)
  }

  function XferAll(s: Lcd, bs: seq<Byte>): (r: Lcd)
    requires s.Valid()
    ensures r.Valid() && r.a0 == s.a0 && r.selected == s.selected
  {
    if bs == [] then s else Xfer(XferAll(s, bs[..|bs| - 1]), bs[|bs| - 1])
  }

  const RESET: Lcd := Lcd(false, false, false, 0, 0, 0, seq(PAGES * WIDTH, i => 0), false, false, false, false)

  class St7565 {
    var a0: bool
    var selected: bool
    var expectContrast: bool
    var contrast: Byte
    var page: nat
    var col: nat
    const gram: array<Byte>
    var invert: bool
    var displayOn: bool
    var segReverse: bool
    var comReverse: bool

    ghost function State(): Lcd
      reads this, gram
    {
      Lcd(a0, selected, expectContrast, contrast, page, col, gram[..], invert, displayOn, segReverse, comReverse)
    }

    ghost predicate Valid()
      reads this, gram
    {
      State().Valid()
    }

    constructor ()
      ensures Valid() && fresh(gram) && State() == RESET
    {
      a0, selected, expectContrast, contrast, page, col := false, false, false, 0, 0, 0;
      invert, displayOn, segReverse, comReverse := false, false, false, false;
      gram := new Byte[PAGES * WIDTH](i => 0);
    }

    method SetA0(level: bool)
      requires Valid()
      modifies `a0
      ensures Valid() && State() == old(State()).(a0 := level)
    {
      a0 := level;
    }

    /** Chip select is active low. */
    method SetCs(level: bool)
      requires Valid()
      modifies `selected
      ensures Valid() && State() == old(State()).(selected := !level)
    {
      selected := !level;
    }

    method TakeCommand(out: Byte)
      requires Valid()
      modifies this
      ensures Valid() && State() == Command(old(State()), out)
    {
      if expectContrast {
        contrast := out;
        expectContrast := false;
        return;
      }
      if 0xb0 <= out <= 0xb7 {
        page := out % 8;
        return;
      }
      if out <= 0x0f {
        col := col / 16 * 16 + out;
        return;
      }
      if 0x10 <= out <= 0x1f {
        col := col % 16 + out % 16 * 16;
        return;
      }
      match out
      case 0xa6 => invert := false;
      case 0xa7 => invert := true;
      case 0xa0 => segReverse := false;
      case 0xa1 => segReverse := true;
      case 0xc0 => comReverse := false;
      case 0xc8 => comReverse := true;
      case 0xae => displayOn := false;
      case 0xaf => displayOn := true;
      case 0x81 => expectContrast := true;
      case 0xe2 =>
        invert := false;
        displayOn := false;
        contrast := 0;
        expectContrast := false;
      case _ =>
    }

    method Transfer(out: Byte) returns (reply: Byte)
      requires Valid()
      modifies this, gram
      ensures Valid() && reply == 0xff && State() == Xfer(old(State()), out)
    {
      reply := 0xff;
      if !selected {
        return;
      }
      if a0 {
        if col >= 4 && col < 132 {
          gram[page * WIDTH + col - 4] := out;
        }
        col := (col + 1) % 132;
        return;
      }
      TakeCommand(out);
    }

    /** st7565_get_gram: the display RAM as hexadecimal digits. */
    method GetGram() returns (hex: string)
      requires Valid()
      ensures hex == ToHex(gram[..])
    {
      hex := [];
      assert gram[..0] == [];
      for page := 0 to PAGES
        invariant hex == ToHex(gram[..page * WIDTH])
      {
        for col := 0 to WIDTH
          invariant hex == ToHex(gram[..page * WIDTH + col])
        {
          var b := gram[page * WIDTH + col];
          ToHexMore(gram[..page * WIDTH + col], b);
          assert gram[..page * WIDTH + col + 1] == gram[..page * WIDTH + col] + [b];
          hex := hex + [Digit(b / 16), Digit(b % 16)];
        }
      }
      assert gram[..PAGES * WIDTH] == gram[..];
    }
  }

  // ------------------------------------------------ hexadecimal

  const DIGITS: string := "0123456789abcdef"

  function Digit(n: nat): char
    requires n < 16
  {
    DIGITS[n]
  }

  function ToHex(bs: seq<Byte>): (s: string)
    ensures |s| == 2 * |bs|
  {
    if bs == [] then [] else [Digit(bs[0] / 16), Digit(bs[0] % 16)] + ToHex(bs[1..])
  }

  lemma {:induction false} ToHexMore(bs: seq<Byte>, b: Byte)
    ensures ToHex(bs + [b]) == ToHex(bs) + [Digit(b / 16), Digit(b % 16)]
  {
    if bs == [] {
      assert [b][1..] == [];
    } else {
      assert (bs + [b])[1..] == bs[1..] + [b];
      ToHexMore(bs[1..], b);
    }
  }

  /** Two digits a byte, the high half first, in lower case. */
  lemma {:induction false} HexAt(bs: seq<Byte>, i: nat)
    requires i < |bs|
    ensures ToHex(bs)[2 * i] == "0123456789abcdef"[bs[i] / 16] && ToHex(bs)[2 * i + 1] == "0123456789abcdef"[bs[i] % 16]
  {
    if i > 0 {
      HexAt(bs[1..], i - 1);
    }
  }
}
