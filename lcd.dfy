/** The pixel buffer of the SSD1306 graphics back end
    (libs/graphics/lcd_ssd1306.c): a 64x32 monochrome display kept as 256
    bytes, each byte a column of 8 vertically stacked pixels; byte
    x + (y/8)*width holds pixel (x, y) in bit y%8.

    The source computes y>>3 and y&7 on a signed int; on two's complement
    those are floor division and the non-negative remainder by 8, which is
    what Dafny's / and % give for the divisor 8. */
module Ssd1306 {

  /** LCD_WIDTH and LCD_HEIGHT. */
  const LcdWidth: int := 64
  const LcdHeight: int := 32

  /** The size of lcdPixels: LCD_WIDTH*LCD_HEIGHT/8. */
  const BufferSize: int := LcdWidth * LcdHeight / 8

  /** The drawing callbacks a graphics context can be given. */
  datatype PixelSetter = NoSetter | SetPixelSsd1306
  datatype PixelGetter = NoGetter | GetPixelSsd1306

  /** The fields of JsGraphics this back end uses. */
  class Graphics {
    var width: int
    var height: int
    var bpp: int
    var setPixel: PixelSetter
    var getPixel: PixelGetter

    constructor ()
      ensures width == 0 && height == 0 && bpp == 0 && setPixel == NoSetter && getPixel == NoGetter
    {
      width, height, bpp := 0, 0, 0;
      setPixel, getPixel := NoSetter, NoGetter;
    }
  }

  /** lcdSetCallbacks_SSD1306 (libs/graphics/lcd_ssd1306.c:135-141): the
      geometry of the display and this back end's pixel callbacks. */
  method SetCallbacks(gfx: Graphics)
    modifies gfx
    ensures gfx.width == LcdWidth && gfx.height == LcdHeight && gfx.bpp == 1
    ensures gfx.setPixel == SetPixelSsd1306 && gfx.getPixel == GetPixelSsd1306
  {
    gfx.width := LcdWidth;
    gfx.height := LcdHeight;
    gfx.bpp := 1;
    gfx.setPixel := SetPixelSsd1306;
    gfx.getPixel := GetPixelSsd1306;
  }

  // ---------------------------------------------------------------------------
  // Byte and bit of a pixel

  /** The byte of pixel (x, y) for a display of the given width. */
  function Addr(x: int, y: int, width: int): int { x + (y / 8) * width }

  /** The bit of pixel (x, y) in its byte, as a shift amount. */
  function Bit(y: int): (k: bv8)
    ensures k < 8 && k as int == y % 8
  {
    (y % 8) as bv8
  }

  /** Bit k of b, as the getter extracts it: shift down, keep the low bit. */
  function BitOf(b: bv8, k: bv8): (r: nat)
    requires k < 8
    ensures r == 0 || r == 1
    ensures r == 1 <==> b & (1 << k) != 0
  {
    ((b >> k) & 1) as nat
  }

  /** b with bit k set (on) or cleared, as the setter writes it. */
  function WithBit(b: bv8, k: bv8, on: bool): bv8
    requires k < 8
  {
    if on then b | (1 << k) else b & !(1 << k)
  }

  /** Writing bit k makes it read back as written and leaves every other
      bit of the byte as it was. */
  lemma WithBitSpec(b: bv8, k: bv8, on: bool, j: bv8)
    requires k < 8 && j < 8
    ensures BitOf(WithBit(b, k, on), j) == if j == k then (if on then 1 else 0) else BitOf(b, j)
  {
  }

  /** With the display's geometry every on-screen pixel has a byte of the
      buffer. */
  lemma AddrInBuffer(x: int, y: int)
    requires 0 <= x < LcdWidth && 0 <= y < LcdHeight
    ensures 0 <= Addr(x, y, LcdWidth) < BufferSize
  {
    assert 0 <= y / 8 <= 3;
    assert (y / 8) * LcdWidth <= 3 * LcdWidth;
  }

  /** With the display's geometry two different on-screen pixels never
      share a byte and a bit. */
  lemma PixelsDistinct(x1: int, y1: int, x2: int, y2: int)
    requires 0 <= x1 < LcdWidth && 0 <= y1 < LcdHeight && 0 <= x2 < LcdWidth && 0 <= y2 < LcdHeight
    requires Addr(x1, y1, LcdWidth) == Addr(x2, y2, LcdWidth) && Bit(y1) == Bit(y2)
    ensures x1 == x2 && y1 == y2
  {
    assert y1 == 8 * (y1 / 8) + y1 % 8 && y2 == 8 * (y2 / 8) + y2 % 8;
  }

  /** Writing pixel (x, y) of a buffer, as the setter does, makes it read
      back as written, and every other on-screen pixel reads as before. */
  lemma WriteReadBack(p: seq<bv8>, x: int, y: int, on: bool, x2: int, y2: int)
    requires |p| == BufferSize
    requires 0 <= x < LcdWidth && 0 <= y < LcdHeight && 0 <= x2 < LcdWidth && 0 <= y2 < LcdHeight
    ensures var a, a2 := Addr(x, y, LcdWidth), Addr(x2, y2, LcdWidth);
            BitOf(p[a := WithBit(p[a], Bit(y), on)][a2], Bit(y2)) ==
              if x2 == x && y2 == y then (if on then 1 else 0) else BitOf(p[a2], Bit(y2))
  {
    AddrInBuffer(x, y);
    AddrInBuffer(x2, y2);
    var a, a2 := Addr(x, y, LcdWidth), Addr(x2, y2, LcdWidth);
    if a2 == a {
      if Bit(y2) == Bit(y) {
        PixelsDistinct(x, y, x2, y2);
      }
      WithBitSpec(p[a], Bit(y), on, Bit(y2));
    }
  }

  // ---------------------------------------------------------------------------
  // The callbacks

  /** lcdGetPixel_SSD1306 (libs/graphics/lcd_ssd1306.c:58-62): bit y%8 of
      byte x + (y/8)*width of lcdPixels; the result is 0 or 1. The source
      does not check the address: callers keep it inside the buffer. */
  function GetPixel(pixels: array<bv8>, gfx: Graphics, x: int, y: int): (r: nat)
    reads pixels, gfx
    requires 0 <= Addr(x, y, gfx.width) < pixels.Length
    ensures r == 0 || r == 1
  {
    BitOf(pixels[Addr(x, y, gfx.width)], Bit(y))
  }

  /** lcdSetPixel_SSD1306 (libs/graphics/lcd_ssd1306.c:65-70): sets bit y%8
      of the pixel's byte when col is not 0 and clears it otherwise. Only
      that bit changes: the pixel reads back as (col != 0), and every other
      on-screen pixel reads as before. */
  method SetPixel(pixels: array<bv8>, gfx: Graphics, x: int, y: int, col: nat)
    requires 0 <= Addr(x, y, gfx.width) < pixels.Length
    modifies pixels
    ensures pixels[..] == old(pixels[..])[Addr(x, y, gfx.width) := WithBit(old(pixels[Addr(x, y, gfx.width)]), Bit(y), col != 0)]
    ensures GetPixel(pixels, gfx, x, y) == if col != 0 then 1 else 0
    ensures gfx.width == LcdWidth && pixels.Length == BufferSize &&
            0 <= x < LcdWidth && 0 <= y < LcdHeight ==>
              forall x2, y2 :: 0 <= x2 < LcdWidth && 0 <= y2 < LcdHeight && (x2 != x || y2 != y) ==>
                GetPixel(pixels, gfx, x2, y2) == old(GetPixel(pixels, gfx, x2, y2))
  {
    var a := Addr(x, y, gfx.width);
    ghost var p0 := pixels[..];
    if col != 0 {
      pixels[a] := pixels[a] | (1 << Bit(y));
    } else {
      pixels[a] := pixels[a] & !(1 << Bit(y));
    }
    ghost var p1 := p0[a := WithBit(p0[a], Bit(y), col != 0)];
    assert pixels[..] == p1;
    WithBitSpec(p0[a], Bit(y), col != 0, Bit(y));
    if gfx.width == LcdWidth && pixels.Length == BufferSize && 0 <= x < LcdWidth && 0 <= y < LcdHeight {
      forall x2, y2 | 0 <= x2 < LcdWidth && 0 <= y2 < LcdHeight && (x2 != x || y2 != y)
        ensures GetPixel(pixels, gfx, x2, y2) == BitOf(p0[Addr(x2, y2, LcdWidth)], Bit(y2))
      {
        AddrInBuffer(x2, y2);
        assert pixels[Addr(x2, y2, LcdWidth)] == p1[Addr(x2, y2, LcdWidth)];
        WriteReadBack(p0, x, y, col != 0, x2, y2);
      }
    }
  }
}
