/**
 * The SSD1306 128x64 OLED driver (main/devices/ssd1306.c, rust/src/ssd1306.rs): a page-packed
 * framebuffer that the drawing operations update in place, and the I2C write transactions
 * that carry commands and the framebuffer to the controller (SSD1306 datasheet rev 1.1:
 * section 8.1.5 for the control byte, section 9 for the commands).
 */
module Ssd1306 {
  import I2c
  import Seqs
  import Gpio

  const Width := 128
  const Height := 64
  /** Width * Height / 8: one bit per pixel, eight vertically stacked pixels per byte. */
  const BufferSize := 1024

  /** The two 7-bit addresses of the controller. */
  const AddrDefault: bv8 := 0x3C
  const AddrAlt: bv8 := 0x3D

  /** Control bytes: Co = 1, D/C# = 0 (one command follows); Co = 0, D/C# = 1 (data to the end). */
  const ControlCmdSingle: bv8 := 0x80
  const ControlDataStream: bv8 := 0x40

  const CmdSetContrast: bv8 := 0x81
  const CmdNormalDisplay: bv8 := 0xA6
  const CmdInvertDisplay: bv8 := 0xA7
  const CmdDisplayOff: bv8 := 0xAE
  const CmdDisplayOn: bv8 := 0xAF
  const CmdColumnAddr: bv8 := 0x21
  const CmdPageAddr: bv8 := 0x22

  /** The controller set-up of ssd1306_init, one command transaction each, in this order. */
  const InitCommands: seq<bv8> := [
    0xAE,        // display off
    0xD5, 0x80,  // clock divide ratio 1, oscillator frequency 8
    0xA8, 0x3F,  // multiplex ratio Height - 1
    0xD3, 0x00,  // display offset 0
    0x40,        // display start line 0
    0x8D, 0x14,  // charge pump enabled
    0x20, 0x00,  // horizontal addressing mode
    0xA1,        // segment re-map: column 127 to SEG0
    0xC8,        // COM scan from COM[N-1] to COM0
    0xDA, 0x12,  // COM pins configuration
    0x81, 0xCF,  // contrast
    0xD9, 0xF1,  // pre-charge period
    0xDB, 0x40,  // VCOMH deselect level
    0xA4,        // display follows RAM
    0xA6,        // normal, not inverted
    0xAF         // display on
  ]

  /** The window set-up of ssd1306_display: columns 0 .. Width - 1, pages 0 .. Height / 8 - 1. */
  const WindowCommands: seq<bv8> := [CmdColumnAddr, 0x00, (Width - 1) as bv8, CmdPageAddr, 0x00, (Height / 8 - 1) as bv8]

  /** The pins and address ssd1306_init is given. */
  datatype Config = Config(i2cAddr: bv8, sclPin: int, sdaPin: int)

  // ---------------------------------------------------------------------------
  // Transactions

  /** The write transaction of one command: address byte, single-command control byte, command. */
  function CommandFrame(addr: bv8, cmd: bv8): seq<bv8>
  {
    [I2c.AddrByte(addr), ControlCmdSingle, cmd]
  }

  /** The write transaction of a data stream: address byte, data-stream control byte, the data. */
  function DataFrame(addr: bv8, data: seq<bv8>): seq<bv8>
  {
    [I2c.AddrByte(addr), ControlDataStream] + data
  }

  /** The bus side after the command transactions of cmds, one after the other, from w. */
  function CommandRun(w: I2c.Wire, addr: bv8, cmds: seq<bv8>): I2c.Wire
    decreases |cmds|
  {
    if |cmds| == 0 then w
    else I2c.Then(CommandRun(w, addr, cmds[..|cmds| - 1]), CommandFrame(addr, cmds[|cmds| - 1]))
  }

  lemma CommandRunStep(w: I2c.Wire, addr: bv8, cmds: seq<bv8>, c: bv8)
    ensures CommandRun(w, addr, cmds + [c]) == I2c.Then(CommandRun(w, addr, cmds), CommandFrame(addr, c))
  {
    assert (cmds + [c])[..|cmds|] == cmds;
  }

  /** The transactions of ssd1306_display for framebuffer contents buf. */
  function DisplayFrames(addr: bv8, buf: seq<bv8>): seq<seq<bv8>>
  {
    [CommandFrame(addr, CmdColumnAddr), CommandFrame(addr, 0), CommandFrame(addr, (Width - 1) as bv8),
     CommandFrame(addr, CmdPageAddr), CommandFrame(addr, 0), CommandFrame(addr, (Height / 8 - 1) as bv8),
     DataFrame(addr, buf)]
  }

  // ---------------------------------------------------------------------------
  // Framebuffer geometry

  predicate InBounds(x: int, y: int) { 0 <= x < Width && 0 <= y < Height }

  /** The byte of pixel (x, y): column x of page y / 8. */
  function ByteIndex(x: int, y: int): int { x + (y / 8) * Width }

  /** `1 << k` for each bit position k of a byte. */
  function BitMask(k: int): bv8
    requires 0 <= k < 8
  {
    if k == 0 then 0x01 else if k == 1 then 0x02 else if k == 2 then 0x04 else if k == 3 then 0x08
    else if k == 4 then 0x10 else if k == 5 then 0x20 else if k == 6 then 0x40 else 0x80
  }

  lemma BitMaskIsShift(k: int)
    requires 0 <= k < 8
    ensures BitMask(k) == (1 as bv8) << k
  {
    if k == 0 {} else if k == 1 {} else if k == 2 {} else if k == 3 {}
    else if k == 4 {} else if k == 5 {} else if k == 6 {} else {}
  }

  /** Whether pixel (x, y) is lit in framebuffer buf: bit y % 8 (the source's `y & 7`) of its byte. */
  predicate PixelOn(buf: seq<bv8>, x: int, y: int)
    requires |buf| == BufferSize && InBounds(x, y)
  {
    buf[ByteIndex(x, y)] & BitMask(y % 8) != 0
  }

  /** Byte b with bit k set (on) or cleared: the `|=` / `&= ~` of set_pixel. */
  function WithBit(b: bv8, k: int, on: bool): bv8
    requires 0 <= k < 8
  {
    if on then b | BitMask(k) else b & !BitMask(k)
  }

  /** buf with pixel (x, y) lit (on) or dark. */
  function WithPixel(buf: seq<bv8>, x: int, y: int, on: bool): (r: seq<bv8>)
    requires |buf| == BufferSize && InBounds(x, y)
    ensures |r| == BufferSize
  {
    var i := ByteIndex(x, y);
    buf[i := WithBit(buf[i], y % 8, on)]
  }

  /** The framebuffer after clear. */
  function Blank(): (r: seq<bv8>)
    ensures |r| == BufferSize
  {
    seq(BufferSize, _ => 0)
  }

  /** Setting or clearing bit k of a byte leaves every other bit as it was. */
  lemma MaskBits(w: bv8, k: int, j: int)
    requires 0 <= k < 8 && 0 <= j < 8
    ensures ((w | BitMask(k)) & BitMask(j) != 0) == (k == j || w & BitMask(j) != 0)
    ensures ((w & !BitMask(k)) & BitMask(j) != 0) == (k != j && w & BitMask(j) != 0)
  {
  }

  /** A byte is determined by its eight bits. */
  lemma ByteFromBits(u: bv8, v: bv8)
    requires forall k :: 0 <= k < 8 ==> (u & BitMask(k) != 0) == (v & BitMask(k) != 0)
    ensures u == v
  {
    assert (u & BitMask(0) != 0) == (v & BitMask(0) != 0);
    assert (u & BitMask(1) != 0) == (v & BitMask(1) != 0);
    assert (u & BitMask(2) != 0) == (v & BitMask(2) != 0);
    assert (u & BitMask(3) != 0) == (v & BitMask(3) != 0);
    assert (u & BitMask(4) != 0) == (v & BitMask(4) != 0);
    assert (u & BitMask(5) != 0) == (v & BitMask(5) != 0);
    assert (u & BitMask(6) != 0) == (v & BitMask(6) != 0);
    assert (u & BitMask(7) != 0) == (v & BitMask(7) != 0);
  }

  /**
   * The page layout is a bijection: every in-bounds pixel has a byte in the buffer, and two
   * pixels share a byte and a bit only if they are the same pixel.
   */
  lemma PixelPosition(x: int, y: int, px: int, py: int)
    requires InBounds(x, y) && InBounds(px, py)
    ensures 0 <= ByteIndex(x, y) < BufferSize
    ensures (ByteIndex(x, y) == ByteIndex(px, py) && y % 8 == py % 8) <==> (x == px && y == py)
  {
    if ByteIndex(x, y) == ByteIndex(px, py) {
      assert x == px && y / 8 == py / 8;
    }
  }

  /** Setting one pixel changes that pixel, to the colour asked for, and no other. */
  lemma WithPixelOnly(buf: seq<bv8>, x: int, y: int, on: bool, px: int, py: int)
    requires |buf| == BufferSize && InBounds(x, y) && InBounds(px, py)
    ensures PixelOn(WithPixel(buf, x, y, on), px, py) == if px == x && py == y then on else PixelOn(buf, px, py)
  {
    PixelPosition(x, y, px, py);
    if ByteIndex(x, y) == ByteIndex(px, py) {
      MaskBits(buf[ByteIndex(x, y)], y % 8, py % 8);
    }
  }

  /** WithPixelOnly for every pixel at once. */
  lemma WithPixelPixels(buf: seq<bv8>, x: int, y: int, on: bool)
    requires |buf| == BufferSize && InBounds(x, y)
    ensures forall px, py | InBounds(px, py) ::
      PixelOn(WithPixel(buf, x, y, on), px, py) == if px == x && py == y then on else PixelOn(buf, px, py)
  {
    forall px, py | InBounds(px, py)
      ensures PixelOn(WithPixel(buf, x, y, on), px, py) == if px == x && py == y then on else PixelOn(buf, px, py)
    {
      WithPixelOnly(buf, x, y, on, px, py);
    }
  }

  /** Two framebuffers that light the same pixels are equal: the pixels are the whole state. */
  lemma BufferOfPixels(a: seq<bv8>, b: seq<bv8>)
    requires |a| == BufferSize && |b| == BufferSize
    requires forall px, py | InBounds(px, py) :: PixelOn(a, px, py) == PixelOn(b, px, py)
    ensures a == b
  {
    forall i | 0 <= i < BufferSize
      ensures a[i] == b[i]
    {
      var x, page := i % Width, i / Width;
      forall k | 0 <= k < 8
        ensures (a[i] & BitMask(k) != 0) == (b[i] & BitMask(k) != 0)
      {
        var y := page * 8 + k;
        assert y / 8 == page && y % 8 == k;
        assert ByteIndex(x, y) == i;
        assert PixelOn(a, x, y) == PixelOn(b, x, y);
      }
      ByteFromBits(a[i], b[i]);
    }
  }

  /** No pixel of the cleared framebuffer is lit. */
  lemma BlankIsDark(x: int, y: int)
    requires InBounds(x, y)
    ensures !PixelOn(Blank(), x, y)
  {
    PixelPosition(x, y, x, y);
  }

  /** The number of iterations of a loop `for j := y; j < y + n; j++`: n, or none when n <= 0. */
  function Span(n: int): nat
  {
    if n > 0 then n else 0
  }

  /** buf with pixels (x, y) .. (x, y + n - 1) of one column given colour on, where on the screen. */
  function ColumnFilled(x: int, y: int, n: nat, on: bool, buf: seq<bv8>): (r: seq<bv8>)
    requires |buf| == BufferSize
    ensures |r| == BufferSize
  {
    if n == 0 then buf
    else
      var prev := ColumnFilled(x, y, n - 1, on, buf);
      if InBounds(x, y + n - 1) then WithPixel(prev, x, y + n - 1, on) else prev
  }

  /** buf with columns x .. x + m - 1 of the rectangle of height n at (x, y) filled. */
  function RectFilled(x: int, y: int, m: nat, n: nat, on: bool, buf: seq<bv8>): (r: seq<bv8>)
    requires |buf| == BufferSize
    ensures |r| == BufferSize
  {
    if m == 0 then buf else ColumnFilled(x + m - 1, y, n, on, RectFilled(x, y, m - 1, n, on, buf))
  }

  /** Filling one more row of a column sets that pixel, if on the screen, and no other. */
  lemma ColumnFilledStep(x: int, y: int, n: nat, on: bool, buf: seq<bv8>, px: int, py: int)
    requires |buf| == BufferSize && 0 < n && InBounds(px, py)
    ensures PixelOn(ColumnFilled(x, y, n, on, buf), px, py) ==
      if px == x && py == y + n - 1 then on else PixelOn(ColumnFilled(x, y, n - 1, on, buf), px, py)
  {
    var prev := ColumnFilled(x, y, n - 1, on, buf);
    if InBounds(x, y + n - 1) {
      assert ColumnFilled(x, y, n, on, buf) == WithPixel(prev, x, y + n - 1, on);
      WithPixelOnly(prev, x, y + n - 1, on, px, py);
    } else {
      assert ColumnFilled(x, y, n, on, buf) == prev;
    }
  }

  /** A filled column segment has the colour on its rows and leaves every other pixel alone. */
  lemma {:induction false} ColumnFilledPixel(x: int, y: int, n: nat, on: bool, buf: seq<bv8>, px: int, py: int)
    requires |buf| == BufferSize && InBounds(px, py)
    ensures PixelOn(ColumnFilled(x, y, n, on, buf), px, py) ==
      if px == x && y <= py < y + n then on else PixelOn(buf, px, py)
  {
    if n > 0 {
      ColumnFilledPixel(x, y, n - 1, on, buf, px, py);
      ColumnFilledStep(x, y, n, on, buf, px, py);
    }
  }

  /** A filled rectangle has the colour on its pixels and leaves every other pixel alone. */
  lemma {:induction false} RectFilledPixel(x: int, y: int, m: nat, n: nat, on: bool, buf: seq<bv8>, px: int, py: int)
    requires |buf| == BufferSize && InBounds(px, py)
    ensures PixelOn(RectFilled(x, y, m, n, on, buf), px, py) ==
      if x <= px < x + m && y <= py < y + n then on else PixelOn(buf, px, py)
  {
    if m > 0 {
      RectFilledPixel(x, y, m - 1, n, on, buf, px, py);
      ColumnFilledPixel(x + m - 1, y, n, on, RectFilled(x, y, m - 1, n, on, buf), px, py);
    }
  }

  /** RectFilledPixel for every pixel at once. */
  lemma RectFilledPixels(x: int, y: int, m: nat, n: nat, on: bool, buf: seq<bv8>)
    requires |buf| == BufferSize
    ensures forall px, py | InBounds(px, py) ::
      PixelOn(RectFilled(x, y, m, n, on, buf), px, py) ==
        if x <= px < x + m && y <= py < y + n then on else PixelOn(buf, px, py)
  {
    forall px, py | InBounds(px, py)
      ensures PixelOn(RectFilled(x, y, m, n, on, buf), px, py) ==
        if x <= px < x + m && y <= py < y + n then on else PixelOn(buf, px, py)
    {
      RectFilledPixel(x, y, m, n, on, buf, px, py);
    }
  }

  // ---------------------------------------------------------------------------
  // Text

  /** Every glyph of the font is five column bitmaps, bit j of a column being row j. */
  predicate FontValid(font: seq<seq<bv8>>)
  {
    forall k :: 0 <= k < |font| ==> |font[k]| == 5
  }

  /** The font entry draw_char uses for c: codes outside 32..126 are drawn as a space, code 32. */
  function GlyphIndex(c: char): int
  {
    if c < ' ' || c > '~' then 0 else c as int - 32
  }

  /**
   * Whether char c drawn with its top-left corner at (x, y) lights pixel (px, py): bit
   * py - y (one of 0..6; bit 7 is never drawn) of column px - x (one of 0..4) of its glyph.
   * A glyph index beyond the font draws nothing.
   */
  predicate Inked(font: seq<seq<bv8>>, x: int, y: int, c: char, px: int, py: int)
    requires FontValid(font)
  {
    var g := GlyphIndex(c);
    g < |font| && 0 <= px - x < 5 && 0 <= py - y < 7 && font[g][px - x] & BitMask(py - y) != 0
  }

  /**
   * The framebuffer after draw_char has visited rows 0 .. j - 1 of one glyph column, the
   * bitmap bits drawn at column x with its top row at y, starting from buf: each visited row
   * whose bit is set and that lies on the screen is lit.
   */
  function ColumnPlotted(bits: bv8, x: int, y: int, buf: seq<bv8>, j: nat): (r: seq<bv8>)
    requires |buf| == BufferSize && j <= 7
    ensures |r| == BufferSize
  {
    if j == 0 then buf
    else
      var prev := ColumnPlotted(bits, x, y, buf, j - 1);
      if bits & BitMask(j - 1) != 0 && InBounds(x, y + j - 1) then WithPixel(prev, x, y + j - 1, true) else prev
  }

  /** The framebuffer after draw_char has visited columns 0 .. i - 1 of glyph at (x, y), starting from buf. */
  function GlyphPlotted(glyph: seq<bv8>, x: int, y: int, buf: seq<bv8>, i: nat): (r: seq<bv8>)
    requires |glyph| == 5 && |buf| == BufferSize && i <= 5
    ensures |r| == BufferSize
  {
    if i == 0 then buf else ColumnPlotted(glyph[i - 1], x + i - 1, y, GlyphPlotted(glyph, x, y, buf, i - 1), 7)
  }

  /** What draw_char does to buf: the whole glyph, or nothing for a glyph index beyond the font. */
  function DrawnChar(font: seq<seq<bv8>>, x: int, y: int, c: char, buf: seq<bv8>): (r: seq<bv8>)
    requires FontValid(font) && |buf| == BufferSize
    ensures |r| == BufferSize
  {
    if GlyphIndex(c) < |font| then GlyphPlotted(font[GlyphIndex(c)], x, y, buf, 5) else buf
  }

  /** Visiting row j - 1 of a column lights that pixel when its bit is set and changes no other pixel. */
  lemma ColumnPixelStep(bits: bv8, x: int, y: int, buf: seq<bv8>, j: nat, px: int, py: int)
    requires |buf| == BufferSize && 0 < j <= 7 && InBounds(px, py)
    ensures PixelOn(ColumnPlotted(bits, x, y, buf, j), px, py) ==
      (PixelOn(ColumnPlotted(bits, x, y, buf, j - 1), px, py) || (px == x && py == y + j - 1 && bits & BitMask(j - 1) != 0))
  {
    var prev := ColumnPlotted(bits, x, y, buf, j - 1);
    if bits & BitMask(j - 1) != 0 && InBounds(x, y + j - 1) {
      assert ColumnPlotted(bits, x, y, buf, j) == WithPixel(prev, x, y + j - 1, true);
      WithPixelOnly(prev, x, y + j - 1, true, px, py);
    } else {
      assert ColumnPlotted(bits, x, y, buf, j) == prev;
    }
  }

  /** A column visit lights exactly the set bits of its rows visited so far and leaves every other pixel alone. */
  lemma {:induction false} ColumnPixel(bits: bv8, x: int, y: int, buf: seq<bv8>, j: nat, px: int, py: int)
    requires |buf| == BufferSize && j <= 7 && InBounds(px, py)
    ensures PixelOn(ColumnPlotted(bits, x, y, buf, j), px, py) ==
      (PixelOn(buf, px, py) || (px == x && 0 <= py - y < j && bits & BitMask(py - y) != 0))
  {
    if j > 0 {
      ColumnPixel(bits, x, y, buf, j - 1, px, py);
      ColumnPixelStep(bits, x, y, buf, j, px, py);
      if py == y + j - 1 {
        assert py - y == j - 1;
      }
    }
  }

  /** A glyph visit lights exactly the set bits of its columns visited so far and leaves every other pixel alone. */
  lemma {:induction false} GlyphPixel(glyph: seq<bv8>, x: int, y: int, buf: seq<bv8>, i: nat, px: int, py: int)
    requires |glyph| == 5 && |buf| == BufferSize && i <= 5 && InBounds(px, py)
    ensures PixelOn(GlyphPlotted(glyph, x, y, buf, i), px, py) ==
      (PixelOn(buf, px, py) || (0 <= px - x < i && 0 <= py - y < 7 && glyph[px - x] & BitMask(py - y) != 0))
  {
    if i > 0 {
      var prev := GlyphPlotted(glyph, x, y, buf, i - 1);
      GlyphPixel(glyph, x, y, buf, i - 1, px, py);
      ColumnPixel(glyph[i - 1], x + i - 1, y, prev, 7, px, py);
    }
  }

  /** draw_char lights the pixels of the glyph and turns no pixel off. */
  lemma DrawnCharPixels(font: seq<seq<bv8>>, x: int, y: int, c: char, buf: seq<bv8>)
    requires FontValid(font) && |buf| == BufferSize
    ensures forall px, py | InBounds(px, py) ::
      PixelOn(DrawnChar(font, x, y, c, buf), px, py) == (PixelOn(buf, px, py) || Inked(font, x, y, c, px, py))
  {
    forall px, py | InBounds(px, py)
      ensures PixelOn(DrawnChar(font, x, y, c, buf), px, py) == (PixelOn(buf, px, py) || Inked(font, x, y, c, px, py))
    {
      if GlyphIndex(c) < |font| {
        GlyphPixel(font[GlyphIndex(c)], x, y, buf, 5, px, py);
      }
    }
  }

  /** A character cell of draw_string: char c with its top-left corner at (x, y). */
  datatype Cell = Cell(x: int, y: int, c: char)

  /**
   * The cells draw_string draws for s from cursor (cx, cy), x0 being the column the cursor
   * returns to. The string ends at its first NUL; '\n' starts a new text row 8 pixels lower
   * without drawing; every other char is drawn at the cursor, which then moves 6 columns on,
   * starting a new text row once it reaches Width.
   */
  function Layout(x0: int, cx: int, cy: int, s: string): seq<Cell>
    decreases |s|
  {
    if |s| == 0 || s[0] == '\0' then []
    else if s[0] == '\n' then Layout(x0, x0, cy + 8, s[1..])
    else if cx + 6 >= Width then [Cell(cx, cy, s[0])] + Layout(x0, x0, cy + 8, s[1..])
    else [Cell(cx, cy, s[0])] + Layout(x0, cx + 6, cy, s[1..])
  }

  /** A newline at position i moves the cursor to the start of the next text row. */
  lemma LayoutNewline(x0: int, cx: int, cy: int, s: string, i: int)
    requires 0 <= i < |s| && s[i] == '\n'
    ensures Layout(x0, cx, cy, s[i..]) == Layout(x0, x0, cy + 8, s[i + 1..])
  {
    assert s[i..][1..] == s[i + 1..];
  }

  /** Any other char before the end is drawn at the cursor, which then moves on one cell. */
  lemma LayoutChar(x0: int, cx: int, cy: int, s: string, i: int)
    requires 0 <= i < |s| && s[i] != '\n' && s[i] != '\0'
    ensures Layout(x0, cx, cy, s[i..]) == [Cell(cx, cy, s[i])] +
      (if cx + 6 >= Width then Layout(x0, x0, cy + 8, s[i + 1..]) else Layout(x0, cx + 6, cy, s[i + 1..]))
  {
    assert s[i..][1..] == s[i + 1..];
  }

  /** The chars of s that draw_string draws: those before the first NUL except the newlines. */
  function Visible(s: string): string
    decreases |s|
  {
    if |s| == 0 || s[0] == '\0' then []
    else if s[0] == '\n' then Visible(s[1..])
    else [s[0]] + Visible(s[1..])
  }

  function CellChars(cells: seq<Cell>): string
  {
    seq(|cells|, k requires 0 <= k < |cells| => cells[k].c)
  }

  /** draw_string draws every visible char of the string once, in order, and nothing else. */
  lemma {:induction false} LayoutChars(x0: int, cx: int, cy: int, s: string)
    ensures CellChars(Layout(x0, cx, cy, s)) == Visible(s)
    decreases |s|
  {
    if |s| > 0 && s[0] != '\0' {
      if s[0] == '\n' {
        LayoutChars(x0, x0, cy + 8, s[1..]);
      } else {
        var rest := if cx + 6 >= Width then Layout(x0, x0, cy + 8, s[1..]) else Layout(x0, cx + 6, cy, s[1..]);
        if cx + 6 >= Width {
          LayoutChars(x0, x0, cy + 8, s[1..]);
        } else {
          LayoutChars(x0, cx + 6, cy, s[1..]);
        }
        assert Layout(x0, cx, cy, s) == [Cell(cx, cy, s[0])] + rest;
        assert CellChars([Cell(cx, cy, s[0])] + rest) == [s[0]] + CellChars(rest);
      }
    }
  }

  /**
   * The cursor rules of draw_string: every cell starts a whole number of 6-column steps right
   * of x0, at x0 itself or left of Width, and a whole number of 8-row text rows below cy.
   */
  lemma {:induction false} LayoutPositions(x0: int, cx: int, cy: int, s: string)
    requires x0 <= cx && (cx - x0) % 6 == 0 && (cx == x0 || cx < Width)
    ensures forall c | c in Layout(x0, cx, cy, s) ::
      x0 <= c.x && (c.x - x0) % 6 == 0 && (c.x == x0 || c.x < Width) && cy <= c.y && (c.y - cy) % 8 == 0
    decreases |s|
  {
    if |s| > 0 && s[0] != '\0' {
      if s[0] == '\n' || cx + 6 >= Width {
        LayoutPositions(x0, x0, cy + 8, s[1..]);
      } else {
        LayoutPositions(x0, cx + 6, cy, s[1..]);
      }
    }
  }

  /** Whether s holds neither a newline nor a NUL. */
  predicate PlainText(s: string)
  {
    forall k :: 0 <= k < |s| ==> s[k] != '\n' && s[k] != '\0'
  }

  /**
   * A text row of at most 21 plain chars drawn from the left edge never wraps: char k is
   * drawn at column 6 * k of the row.
   */
  lemma {:induction false} RowLayout(m: int, cy: int, s: string)
    requires 0 <= m && m + |s| <= 21 && PlainText(s)
    ensures Layout(0, 6 * m, cy, s) == seq(|s|, k requires 0 <= k < |s| => Cell(6 * (m + k), cy, s[k]))
    decreases |s|
  {
    if |s| > 0 {
      RowLayout(m + 1, cy, s[1..]);
    }
  }

  /** Whether some cell of `cells` lights pixel (px, py). */
  predicate InkedBy(font: seq<seq<bv8>>, cells: seq<Cell>, px: int, py: int)
    requires FontValid(font)
    decreases |cells|
  {
    |cells| > 0 &&
    (InkedBy(font, cells[..|cells| - 1], px, py) ||
     (var c := cells[|cells| - 1]; Inked(font, c.x, c.y, c.c, px, py)))
  }

  lemma InkedByStep(font: seq<seq<bv8>>, cells: seq<Cell>, c: Cell, px: int, py: int)
    requires FontValid(font)
    ensures InkedBy(font, cells + [c], px, py) == (InkedBy(font, cells, px, py) || Inked(font, c.x, c.y, c.c, px, py))
  {
    assert (cells + [c])[..|cells|] == cells;
  }

  /** The cells of two drawings light exactly the pixels either of them lights. */
  lemma {:induction false} InkedByAppend(font: seq<seq<bv8>>, a: seq<Cell>, b: seq<Cell>, px: int, py: int)
    requires FontValid(font)
    ensures InkedBy(font, a + b, px, py) == (InkedBy(font, a, px, py) || InkedBy(font, b, px, py))
    decreases |b|
  {
    if |b| > 0 {
      var n := |b| - 1;
      InkedByAppend(font, a, b[..n], px, py);
      assert (a + b)[..|a + b| - 1] == a + b[..n];
      assert (a + b)[|a + b| - 1] == b[n];
    } else {
      assert a + b == a;
    }
  }

  /** buf with the chars of `cells` drawn in order, each as draw_char draws it. */
  function DrawnCells(font: seq<seq<bv8>>, cells: seq<Cell>, buf: seq<bv8>): (r: seq<bv8>)
    requires FontValid(font) && |buf| == BufferSize
    ensures |r| == BufferSize
    decreases |cells|
  {
    if |cells| == 0 then buf
    else
      var c := cells[|cells| - 1];
      DrawnChar(font, c.x, c.y, c.c, DrawnCells(font, cells[..|cells| - 1], buf))
  }

  lemma DrawnCellsStep(font: seq<seq<bv8>>, cells: seq<Cell>, c: Cell, buf: seq<bv8>)
    requires FontValid(font) && |buf| == BufferSize
    ensures DrawnCells(font, cells + [c], buf) == DrawnChar(font, c.x, c.y, c.c, DrawnCells(font, cells, buf))
  {
    assert (cells + [c])[..|cells|] == cells;
  }

  /** Drawing cells lights exactly the pixels some cell inks, and turns no pixel off. */
  lemma {:induction false} DrawnCellsPixel(font: seq<seq<bv8>>, cells: seq<Cell>, buf: seq<bv8>, px: int, py: int)
    requires FontValid(font) && |buf| == BufferSize && InBounds(px, py)
    ensures PixelOn(DrawnCells(font, cells, buf), px, py) == (PixelOn(buf, px, py) || InkedBy(font, cells, px, py))
    decreases |cells|
  {
    if |cells| > 0 {
      var c := cells[|cells| - 1];
      var prev := DrawnCells(font, cells[..|cells| - 1], buf);
      DrawnCellsPixel(font, cells[..|cells| - 1], buf, px, py);
      DrawnCharPixels(font, c.x, c.y, c.c, prev);
    }
  }

  // ---------------------------------------------------------------------------
  // The driver

  class Driver {
    /** The 7-bit I2C address ssd1306_init stores. */
    const addr: bv8
    /** The framebuffer: byte x + page * Width holds rows 8 * page .. 8 * page + 7 of column x, the top row in bit 0. */
    const buffer: array<bv8>
    /** The 5x7 font, glyph k for char code 32 + k. */
    const font: seq<seq<bv8>>
    const bus: I2c.Bus

    /** The buffer has its size, the font its shape, and the bus is idle between transactions. */
    ghost predicate Valid()
      reads this, bus
    {
      buffer.Length == BufferSize && FontValid(font) && bus.Idle()
    }

    /**
     * ssd1306_init: stores the address, initialises the bus at 400 kHz, sends the 25 set-up
     * commands one transaction each, clears the framebuffer and sends it. The source returns
     * true whatever the device answered.
     */
    constructor Init(gpio: Gpio.Registers, config: Config, font: seq<seq<bv8>>, remote: seq<bool>)
      requires gpio.Valid() && FontValid(font)
      modifies gpio
      ensures Valid() && gpio.Valid() && fresh(bus) && fresh(buffer)
      ensures addr == config.i2cAddr && this.font == font
      ensures bus.sclPin == config.sclPin && bus.sdaPin == config.sdaPin
      ensures gpio.regs == Gpio.ReleasedLines(
        Gpio.OpenDrainRegs(Gpio.OpenDrainRegs(old(gpio.regs), config.sclPin), config.sdaPin), config.sclPin, config.sdaPin)
      ensures bus.delayCycles == I2c.DelayCycles(400000)
      ensures buffer[..] == Blank()
      ensures bus.Log() == I2c.Run(CommandRun(I2c.Wire([], remote, []), addr, InitCommands), DisplayFrames(addr, Blank()))
    {
      addr := config.i2cAddr;
      this.font := font;
      bus := new I2c.Bus.Init(gpio, config.sclPin, config.sdaPin, 400000, remote);
      buffer := new bv8[BufferSize];
      new;
      SendCommands(InitCommands);
      Clear();
      Display();
    }

    /**
     * The 25 send_command calls of ssd1306_init, in order: one command transaction per
     * element of cmds, whatever the device answers.
     */
    method SendCommands(cmds: seq<bv8>)
      requires Valid()
      modifies bus
      ensures Valid()
      ensures bus.Log() == CommandRun(old(bus.Log()), addr, cmds)
    {
      ghost var w0 := bus.Log();
      for i := 0 to |cmds|
        invariant Valid()
        invariant bus.Log() == CommandRun(w0, addr, cmds[..i])
      {
        var _ := SendCommand(cmds[i]);
        CommandRunStep(w0, addr, cmds[..i], cmds[i]);
        assert cmds[..i + 1] == cmds[..i] + [cmds[i]];
      }
      assert cmds[..|cmds|] == cmds;
    }

    /** ssd1306_send_command: one i2c_write of the single-command control byte and the command. */
    method SendCommand(cmd: bv8) returns (ok: bool)
      requires Valid()
      modifies bus
      ensures Valid()
      ensures bus.Log() == I2c.Then(old(bus.Log()), CommandFrame(addr, cmd))
      ensures ok == I2c.Acked(CommandFrame(addr, cmd), old(bus.remote))
    {
      ok := bus.Write(addr, [ControlCmdSingle, cmd]);
    }

    /**
     * ssd1306_send_data: START, the address byte, the data-stream control byte, the data bytes,
     * STOP; the first NACK sends STOP at once. The `!i2c_start()` early return is unreachable.
     */
    method SendData(data: seq<bv8>) returns (ok: bool)
      requires Valid()
      modifies bus
      ensures Valid()
      ensures bus.Log() == I2c.Then(old(bus.Log()), DataFrame(addr, data))
      ensures ok == I2c.Acked(DataFrame(addr, data), old(bus.remote))
    {
      ghost var f := DataFrame(addr, data);
      ghost var r0, t0, s0 := bus.remote, bus.trace, bus.sent;
      var _ := bus.Start();
      assert f[..0] == [] && I2c.Drop(r0, 0) == r0;
      ok := bus.WriteOrStop(I2c.AddrByte(addr), f, r0, t0, s0, 0);
      if !ok {
        return;
      }
      ok := bus.WriteOrStop(ControlDataStream, f, r0, t0, s0, 1);
      if !ok {
        return;
      }
      assert f[2..] == data;
      ok := bus.WriteData(data, f, r0, t0, s0, 2);
    }

    /** ssd1306_display: the column and page window, then the whole framebuffer as one data stream. */
    method Display()
      requires Valid()
      modifies bus
      ensures Valid()
      ensures bus.Log() == I2c.Run(old(bus.Log()), DisplayFrames(addr, old(buffer[..])))
    {
      var data := buffer[..];
      ghost var w, fs := bus.Log(), [];
      var _ := SendCommand(CmdColumnAddr);
      I2c.RunStep(w, fs, CommandFrame(addr, CmdColumnAddr));
      fs := fs + [CommandFrame(addr, CmdColumnAddr)];
      var _ := SendCommand(0);
      I2c.RunStep(w, fs, CommandFrame(addr, 0));
      fs := fs + [CommandFrame(addr, 0)];
      var _ := SendCommand((Width - 1) as bv8);
      I2c.RunStep(w, fs, CommandFrame(addr, (Width - 1) as bv8));
      fs := fs + [CommandFrame(addr, (Width - 1) as bv8)];
      var _ := SendCommand(CmdPageAddr);
      I2c.RunStep(w, fs, CommandFrame(addr, CmdPageAddr));
      fs := fs + [CommandFrame(addr, CmdPageAddr)];
      var _ := SendCommand(0);
      I2c.RunStep(w, fs, CommandFrame(addr, 0));
      fs := fs + [CommandFrame(addr, 0)];
      var _ := SendCommand((Height / 8 - 1) as bv8);
      I2c.RunStep(w, fs, CommandFrame(addr, (Height / 8 - 1) as bv8));
      fs := fs + [CommandFrame(addr, (Height / 8 - 1) as bv8)];
      var _ := SendData(data);
      I2c.RunStep(w, fs, DataFrame(addr, data));
      fs := fs + [DataFrame(addr, data)];
      assert fs == DisplayFrames(addr, data);
    }

    /** ssd1306_set_contrast: the contrast command, then the level, as two transactions. */
    method SetContrast(contrast: bv8)
      requires Valid()
      modifies bus
      ensures Valid()
      ensures bus.Log() == I2c.Run(old(bus.Log()), [CommandFrame(addr, CmdSetContrast), CommandFrame(addr, contrast)])
    {
      ghost var w := bus.Log();
      var _ := SendCommand(CmdSetContrast);
      I2c.RunStep(w, [], CommandFrame(addr, CmdSetContrast));
      var _ := SendCommand(contrast);
      I2c.RunStep(w, [CommandFrame(addr, CmdSetContrast)], CommandFrame(addr, contrast));
    }

    /** ssd1306_display_on: display on (AF) or off, sleep mode (AE). */
    method DisplayOn(on: bool)
      requires Valid()
      modifies bus
      ensures Valid()
      ensures bus.Log() == I2c.Then(old(bus.Log()), CommandFrame(addr, if on then CmdDisplayOn else CmdDisplayOff))
    {
      var _ := SendCommand(if on then CmdDisplayOn else CmdDisplayOff);
    }

    /** ssd1306_invert_display: inverted (A7) or normal (A6) colours. */
    method InvertDisplay(invert: bool)
      requires Valid()
      modifies bus
      ensures Valid()
      ensures bus.Log() == I2c.Then(old(bus.Log()), CommandFrame(addr, if invert then CmdInvertDisplay else CmdNormalDisplay))
    {
      var _ := SendCommand(if invert then CmdInvertDisplay else CmdNormalDisplay);
    }

    /** ssd1306_clear: every framebuffer byte set to 0. */
    method Clear()
      requires Valid()
      modifies buffer
      ensures buffer[..] == Blank()
    {
      for i := 0 to BufferSize
        invariant forall k :: 0 <= k < i ==> buffer[k] == 0
      {
        buffer[i] := 0;
      }
    }

    /**
     * ssd1306_set_pixel: an in-bounds pixel is lit iff color != 0; only its bit of its byte
     * changes. Out-of-bounds coordinates change nothing.
     */
    method SetPixel(x: int, y: int, color: bv8)
      requires Valid()
      modifies buffer
      ensures InBounds(x, y) ==> buffer[..] == WithPixel(old(buffer[..]), x, y, color != 0)
      ensures !InBounds(x, y) ==> buffer[..] == old(buffer[..])
    {
      if x < 0 || x >= Width || y < 0 || y >= Height {
        return;
      }
      PixelPosition(x, y, x, y);
      var i := x + (y / 8) * Width;
      var mask := BitMask(y % 8);
      var v := if color != 0 then buffer[i] | mask else buffer[i] & !mask;
      assert v == WithBit(buffer[i], y % 8, color != 0);
      buffer[i] := v;
    }

    /**
     * ssd1306_fill_rect: set_pixel on every pixel of [x, x + w) x [y, y + h), column by column;
     * an empty rectangle (w <= 0 or h <= 0) changes nothing.
     */
    method FillRect(x: int, y: int, w: int, h: int, color: bv8)
      requires Valid()
      modifies buffer
      ensures buffer[..] == RectFilled(x, y, Span(w), Span(h), color != 0, old(buffer[..]))
      ensures forall px, py | InBounds(px, py) ::
        PixelOn(buffer[..], px, py) ==
          if x <= px < x + w && y <= py < y + h then color != 0 else PixelOn(old(buffer[..]), px, py)
    {
      ghost var before := buffer[..];
      var i := x;
      while i < x + w
        invariant x <= i && (i == x || i <= x + w)
        invariant buffer[..] == RectFilled(x, y, i - x, Span(h), color != 0, before)
      {
        FillColumn(i, y, h, color);
        i := i + 1;
      }
      assert i - x == Span(w);
      RectFilledPixels(x, y, Span(w), Span(h), color != 0, before);
    }

    /** The inner loop of fill_rect: set_pixel on rows y .. y + h - 1 of column x. */
    method FillColumn(x: int, y: int, h: int, color: bv8)
      requires Valid()
      modifies buffer
      ensures buffer[..] == ColumnFilled(x, y, Span(h), color != 0, old(buffer[..]))
    {
      ghost var before := buffer[..];
      var j := y;
      while j < y + h
        invariant y <= j && (j == y || j <= y + h)
        invariant buffer[..] == ColumnFilled(x, y, j - y, color != 0, before)
      {
        SetPixel(x, j, color);
        j := j + 1;
      }
      assert j - y == Span(h);
    }

    /**
     * ssd1306_draw_char: draws c's glyph with its top-left corner at (x, y), column by column;
     * DrawnCharPixels says which pixels that lights.
     */
    method DrawChar(x: int, y: int, c: char)
      requires Valid()
      modifies buffer
      ensures buffer[..] == DrawnChar(font, x, y, c, old(buffer[..]))
    {
      ghost var before := buffer[..];
      var ch := if c < ' ' || c > '~' then ' ' else c;
      var idx := ch as int - 32;
      if idx >= |font| {
        return;
      }
      var glyph := font[idx];
      assert glyph == font[GlyphIndex(c)];
      for i := 0 to 5
        invariant buffer[..] == GlyphPlotted(glyph, x, y, before, i)
      {
        DrawColumn(x + i, y, glyph[i]);
      }
    }

    /** The inner loop of draw_char: rows 0 .. 6 of one glyph column, each lit pixel drawn with set_pixel. */
    method DrawColumn(x: int, y: int, line: bv8)
      requires Valid()
      modifies buffer
      ensures buffer[..] == ColumnPlotted(line, x, y, old(buffer[..]), 7)
    {
      ghost var before := buffer[..];
      for j := 0 to 7
        invariant buffer[..] == ColumnPlotted(line, x, y, before, j)
      {
        if line & BitMask(j) != 0 {
          SetPixel(x, y + j, 1);
        }
      }
    }

    /**
     * ssd1306_draw_string: draws the cells of Layout(x, x, y, s) in order, each as draw_char
     * does, so it lights exactly the pixels those cells ink and turns no pixel off.
     */
    method DrawString(x: int, y: int, s: string)
      requires Valid()
      modifies buffer
      ensures buffer[..] == DrawnCells(font, Layout(x, x, y, s), old(buffer[..]))
      ensures forall px, py | InBounds(px, py) ::
        PixelOn(buffer[..], px, py) == (PixelOn(old(buffer[..]), px, py) || InkedBy(font, Layout(x, x, y, s), px, py))
    {
      ghost var before := buffer[..];
      var cursorX, cursorY := x, y;
      var i := 0;
      ghost var drawn: seq<Cell> := [];
      while i < |s| && s[i] != '\0'
        invariant 0 <= i <= |s|
        invariant drawn + Layout(x, cursorX, cursorY, s[i..]) == Layout(x, x, y, s)
        invariant buffer[..] == DrawnCells(font, drawn, before)
      {
        if s[i] == '\n' {
          LayoutNewline(x, cursorX, cursorY, s, i);
          cursorX := x;
          cursorY := cursorY + 8;
        } else {
          LayoutChar(x, cursorX, cursorY, s, i);
          var cell := Cell(cursorX, cursorY, s[i]);
          DrawChar(cursorX, cursorY, s[i]);
          DrawnCellsStep(font, drawn, cell, before);
          Seqs.AppendAssoc(drawn, [cell], Layout(x, if cursorX + 6 >= Width then x else cursorX + 6,
            if cursorX + 6 >= Width then cursorY + 8 else cursorY, s[i + 1..]));
          drawn := drawn + [cell];
          cursorX := cursorX + 6;
          if cursorX >= Width {
            cursorX := x;
            cursorY := cursorY + 8;
          }
        }
        i := i + 1;
      }
      assert Layout(x, cursorX, cursorY, s[i..]) == [];
      assert drawn == Layout(x, x, y, s);
      forall px, py | InBounds(px, py)
        ensures PixelOn(buffer[..], px, py) == (PixelOn(before, px, py) || InkedBy(font, drawn, px, py))
      {
        DrawnCellsPixel(font, drawn, before, px, py);
      }
    }
  }
}
