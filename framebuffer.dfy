/** The SSD1306 display surface kept in memory: one bit per pixel, organised in
    pages of eight rows, so that each byte holds eight vertically stacked pixels
    of one column. This module holds the addressing and the pure meaning of a
    pixel write and a pixel read; the driver class applies them in place. */
module Framebuffer {

  type byte = bv8

  const ScreenWidth: nat := 128
  const ScreenHeight: nat := 64
  /** The surface allocated at init: height * width / 8 = 1024 bytes. */
  const BufferSize: nat := ScreenHeight * ScreenWidth / 8

  /** Colours are the integer colour values of the graphics layer. The
      driver only distinguishes Black (pixel off) from everything else. */
  type Color = nat
  const Black: Color := 0
  const White: Color := 1

  /** The caller (the generic drawing layer) clips to the screen; the driver
      itself never checks coordinates. */
  predicate OnScreen(x: int, y: int) {
    0 <= x < ScreenWidth && 0 <= y < ScreenHeight
  }

  /** Byte that holds pixel (x, y): x + (y >> 3) * width. On the non-negative
      coordinates a caller must pass, y >> 3 is y / 8, the page of row y.
      The byte's column and page give back x and the page of y. */
  function ByteIndex(x: int, y: int): (i: nat)
    requires OnScreen(x, y)
    ensures i < BufferSize
    ensures i % ScreenWidth == x && i / ScreenWidth == y / 8
  {
    x + (y / 8) * ScreenWidth
  }

  /** Bit of that byte: y & 7, which is y % 8 for non-negative y; together
      with the page it gives back the row. */
  function BitIndex(y: int): (k: nat)
    requires 0 <= y
    ensures k < 8 && (y / 8) * 8 + k == y
  {
    y % 8
  }

  /** The pixel that bit k of byte i stands for: the inverse of the addressing. */
  function PixelOf(i: nat, k: nat): (p: (int, int))
    requires i < BufferSize && k < 8
    ensures OnScreen(p.0, p.1)
    ensures ByteIndex(p.0, p.1) == i && BitIndex(p.1) == k
  {
    (i % ScreenWidth, (i / ScreenWidth) * 8 + k)
  }

  /** Distinct pixels occupy distinct (byte, bit) places. */
  lemma AddressInjective(x1: int, y1: int, x2: int, y2: int)
    requires OnScreen(x1, y1) && OnScreen(x2, y2)
    requires (x1, y1) != (x2, y2)
    ensures (ByteIndex(x1, y1), BitIndex(y1)) != (ByteIndex(x2, y2), BitIndex(y2))
  {
  }

  /** The mask 1 << k of bit k, tabulated: a byte with exactly one bit set. */
  function Mask(k: nat): (m: byte)
    requires k < 8
    ensures m != 0 && m & (m - 1) == 0
  {
    match k
    case 0 => 0x01 case 1 => 0x02 case 2 => 0x04 case 3 => 0x08
    case 4 => 0x10 case 5 => 0x20 case 6 => 0x40 case _ => 0x80
  }

  /** The table is the shift the driver computes. */
  lemma MaskIsShift(k: nat)
    requires k < 8
    ensures Mask(k) == (1 as byte) << k
  {
  }

  predicate BitSet(b: byte, k: nat)
    requires k < 8
  {
    b & Mask(k) != 0
  }

  /** b | mask when on, b & ~mask otherwise: bit k takes the value `on` and
      the seven other bits keep theirs. */
  function WithBit(b: byte, k: nat, on: bool): (r: byte)
    requires k < 8
    ensures BitSet(r, k) == on
    ensures forall j :: 0 <= j < 8 && j != k ==> BitSet(r, j) == BitSet(b, j)
  {
    MaskedUpdate(b, k, on);
    if on then b | Mask(k) else b & !Mask(k)
  }

  lemma WithBitByMask(b: byte, k: nat, on: bool)
    requires k < 8
    ensures WithBit(b, k, on) == if on then b | Mask(k) else b & !Mask(k)
  {
  }

  /** Setting or clearing bit k through its mask touches that bit only. */
  lemma MaskedUpdate(b: byte, k: nat, on: bool)
    requires k < 8
    ensures forall j :: 0 <= j < 8 && j != k ==>
              BitSet(if on then b | Mask(k) else b & !Mask(k), j) == BitSet(b, j)
  {
    forall j | 0 <= j < 8 && j != k
      ensures BitSet(if on then b | Mask(k) else b & !Mask(k), j) == BitSet(b, j)
    {
      MaskedBit(b, k, j, on);
    }
  }

  lemma MaskedBit(b: byte, k: nat, j: nat, on: bool)
    requires k < 8 && j < 8 && j != k
    ensures BitSet(if on then b | Mask(k) else b & !Mask(k), j) == BitSet(b, j)
  {
  }

  /** A byte is determined by its eight bits. */
  lemma BitsDetermineByte(a: byte, b: byte)
    requires forall k :: 0 <= k < 8 ==> BitSet(a, k) == BitSet(b, k)
    ensures a == b
  {
    assert a & 0x01 == b & 0x01 by { assert BitSet(a, 0) == BitSet(b, 0); }
    assert a & 0x02 == b & 0x02 by { assert BitSet(a, 1) == BitSet(b, 1); }
    assert a & 0x04 == b & 0x04 by { assert BitSet(a, 2) == BitSet(b, 2); }
    assert a & 0x08 == b & 0x08 by { assert BitSet(a, 3) == BitSet(b, 3); }
    assert a & 0x10 == b & 0x10 by { assert BitSet(a, 4) == BitSet(b, 4); }
    assert a & 0x20 == b & 0x20 by { assert BitSet(a, 5) == BitSet(b, 5); }
    assert a & 0x40 == b & 0x40 by { assert BitSet(a, 6) == BitSet(b, 6); }
    assert a & 0x80 == b & 0x80 by { assert BitSet(a, 7) == BitSet(b, 7); }
  }

  /** The colour read back for pixel (x, y): White when its bit is set. */
  function PixelColor(buf: seq<byte>, x: int, y: int): (c: Color)
    requires |buf| == BufferSize && OnScreen(x, y)
    ensures c == White || c == Black
  {
    if BitSet(buf[ByteIndex(x, y)], BitIndex(y)) then White else Black
  }

  /** The surface after drawing pixel (x, y) in `color`: any colour other
      than Black sets the pixel's bit, Black clears it. Reading the pixel
      back gives White or Black accordingly; every other byte, and every
      other bit of the pixel's own byte, is as before. */
  function Drawn(buf: seq<byte>, x: int, y: int, color: Color): (r: seq<byte>)
    requires |buf| == BufferSize && OnScreen(x, y)
    ensures |r| == BufferSize
    ensures PixelColor(r, x, y) == if color != Black then White else Black
    ensures forall j :: 0 <= j < BufferSize && j != ByteIndex(x, y) ==> r[j] == buf[j]
    ensures forall k :: 0 <= k < 8 && k != BitIndex(y) ==>
              BitSet(r[ByteIndex(x, y)], k) == BitSet(buf[ByteIndex(x, y)], k)
  {
    var i := ByteIndex(x, y);
    buf[i := WithBit(buf[i], BitIndex(y), color != Black)]
  }

  /** Drawing one pixel leaves the colour of every other pixel unchanged. */
  lemma DrawLeavesOtherPixels(buf: seq<byte>, x: int, y: int, color: Color, x2: int, y2: int)
    requires |buf| == BufferSize && OnScreen(x, y) && OnScreen(x2, y2)
    requires (x2, y2) != (x, y)
    ensures PixelColor(Drawn(buf, x, y, color), x2, y2) == PixelColor(buf, x2, y2)
  {
    AddressInjective(x, y, x2, y2);
  }

  /** Two surfaces that agree on every pixel are the same bytes: the
      addressing leaves no byte or bit unused. */
  lemma SurfaceDeterminedByPixels(a: seq<byte>, b: seq<byte>)
    requires |a| == BufferSize && |b| == BufferSize
    requires forall x, y :: OnScreen(x, y) ==> PixelColor(a, x, y) == PixelColor(b, x, y)
    ensures a == b
  {
    forall i | 0 <= i < BufferSize
      ensures a[i] == b[i]
    {
      forall k | 0 <= k < 8
        ensures BitSet(a[i], k) == BitSet(b[i], k)
      {
        var p := PixelOf(i, k);
        assert PixelColor(a, p.0, p.1) == PixelColor(b, p.0, p.1);
      }
      BitsDetermineByte(a[i], b[i]);
    }
  }

  /** A second draw of the same pixel undoes the first: the last colour wins. */
  lemma DrawLastWins(buf: seq<byte>, x: int, y: int, c1: Color, c2: Color)
    requires |buf| == BufferSize && OnScreen(x, y)
    ensures Drawn(Drawn(buf, x, y, c1), x, y, c2) == Drawn(buf, x, y, c2)
  {
    var i := ByteIndex(x, y);
    var once, twice := Drawn(buf, x, y, c2), Drawn(Drawn(buf, x, y, c1), x, y, c2);
    forall k | 0 <= k < 8
      ensures BitSet(twice[i], k) == BitSet(once[i], k)
    {
    }
    BitsDetermineByte(twice[i], once[i]);
  }

  /** Drawing a pixel in the colour it already shows changes no byte; the
      driver still marks the surface as needing a flush. */
  lemma RedrawKeepsSurface(buf: seq<byte>, x: int, y: int, color: Color)
    requires |buf| == BufferSize && OnScreen(x, y)
    requires PixelColor(buf, x, y) == if color != Black then White else Black
    ensures Drawn(buf, x, y, color) == buf
  {
    var i := ByteIndex(x, y);
    var r := Drawn(buf, x, y, color);
    forall k | 0 <= k < 8
      ensures BitSet(r[i], k) == BitSet(buf[i], k)
    {
    }
    BitsDetermineByte(r[i], buf[i]);
  }
}
