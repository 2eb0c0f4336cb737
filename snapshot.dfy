/**
 * The image export of backend/snapshot.cpp: the 16-colour palette and the
 * RGB buffer `exportPNG` fills from a list of pixels before handing it to
 * the PNG writer.
 */
module Snapshot {
  import opened Common
  import opened CanvasTypes

  datatype RGB = RGB(r: uint8, g: uint8, b: uint8)

  const WHITE := RGB(255, 255, 255)
  const BLUE := RGB(0, 0, 255)

  /** Black, red, blue, green, yellow, magenta, cyan, orange, purple, dark green, gray, pink, brown, gold, turquoise, white. */
  const PALETTE: seq<RGB> := [
    RGB(0, 0, 0), RGB(255, 0, 0), RGB(0, 0, 255), RGB(0, 255, 0),
    RGB(255, 255, 0), RGB(255, 0, 255), RGB(0, 255, 255), RGB(255, 128, 0),
    RGB(128, 0, 255), RGB(0, 128, 0), RGB(128, 128, 128), RGB(255, 192, 203),
    RGB(165, 42, 42), RGB(255, 215, 0), RGB(64, 224, 208), RGB(255, 255, 255)]

  /** The colour of palette index `colorIndex`; white beyond the palette. */
  function GetRGB(colorIndex: uint8): (c: RGB)
  {
    if colorIndex < |PALETTE| then PALETTE[colorIndex] else WHITE
  }

  /**
   * Index 2, the colour of the blue-pixel quest, is blue; index 15, the
   * colour of a reset cell, is white; and white is what every index from
   * 15 on gives, and no index below 15.
   */
  lemma PaletteColours()
    ensures |PALETTE| == 16
    ensures GetRGB(2) == BLUE && GetRGB(15) == WHITE
    ensures forall c: uint8 :: GetRGB(c) == WHITE <==> c >= 15
  {
    forall c: uint8 | c < 15 ensures GetRGB(c) != WHITE {
      assert PALETTE[c] != WHITE;
    }
  }

  // ----- the RGB buffer -----

  predicate InImage(p: Pixel, width: int, height: int)
  {
    0 <= p.x < width && 0 <= p.y < height
  }

  /** Where the cell `(x, y)` starts in a row-major RGB buffer `width` cells wide. */
  function Offset(x: int, y: int, width: int): int
  {
    (y * width + x) * 3
  }

  lemma {:induction false} CellInBuffer(x: int, y: int, width: int, height: int)
    requires 0 <= x < width && 0 <= y < height
    ensures 0 <= y * width + x < width * height
    ensures 0 <= Offset(x, y, width) && Offset(x, y, width) + 2 < width * height * 3
  {
    assert y * width <= (height - 1) * width by {
      assert (height - 1 - y) * width >= 0;
    }
  }

  /** Distinct cells own disjoint triples of bytes. */
  lemma {:induction false} DistinctCells(x: int, y: int, x': int, y': int, width: int, k: int, k': int)
    requires 0 <= x < width && 0 <= x' < width && 0 <= y && 0 <= y'
    requires 0 <= k < 3 && 0 <= k' < 3
    requires x != x' || y != y'
    ensures Offset(x, y, width) + k != Offset(x', y', width) + k'
  {
    var c, c' := y * width + x, y' * width + x';
    if y < y' {
      RowsApart(y, y', width);
      assert c < c';
    } else if y' < y {
      RowsApart(y', y, width);
      assert c' < c;
    } else {
      assert c != c';
    }
  }

  /** A later row starts at least a whole row further on. */
  lemma {:induction false} RowsApart(y: int, y': int, width: int)
    requires 0 <= y < y' && 0 <= width
    ensures y * width + width <= y' * width
  {
    var d := y' - y - 1;
    assert d * width >= 0;
    assert y' * width == (y + 1 + d) * width == y * width + width + d * width;
  }

  function Channel(c: RGB, k: int): uint8
  {
    if k == 0 then c.r else if k == 1 then c.g else c.b
  }

  /** The buffer after writing `p`'s colour over `buf`; a pixel outside the image writes nothing. */
  function Paint(buf: seq<uint8>, p: Pixel, width: int, height: int): (r: seq<uint8>)
    requires 0 <= width && 0 <= height && |buf| == width * height * 3
    ensures |r| == |buf|
  {
    if InImage(p, width, height) then
      CellInBuffer(p.x, p.y, width, height);
      var i, c := Offset(p.x, p.y, width), GetRGB(p.color);
      buf[i := c.r][i + 1 := c.g][i + 2 := c.b]
    else buf
  }

  /** The buffer `exportPNG` hands to the PNG writer: zeroes, then each pixel painted in turn. */
  function Render(pixels: seq<Pixel>, width: int, height: int): (r: seq<uint8>)
    requires 0 <= width && 0 <= height
    ensures |r| == width * height * 3
  {
    if pixels == [] then seq(width * height * 3, _ => 0)
    else Paint(Render(pixels[..|pixels| - 1], width, height), pixels[|pixels| - 1], width, height)
  }

  /** The last pixel of `pixels` that sits at `(x, y)`. */
  function LastAt(pixels: seq<Pixel>, x: int, y: int): Option<Pixel>
  {
    if pixels == [] then None
    else if pixels[|pixels| - 1].x == x && pixels[|pixels| - 1].y == y then Some(pixels[|pixels| - 1])
    else LastAt(pixels[..|pixels| - 1], x, y)
  }

  /**
   * The three bytes of the cell `(x, y)` hold the colour of the last pixel
   * placed there, and stay 0 when there is none.
   */
  lemma {:induction false} RenderCell(pixels: seq<Pixel>, width: int, height: int, x: int, y: int, k: int)
    requires 0 <= x < width && 0 <= y < height && 0 <= k < 3
    ensures 0 <= Offset(x, y, width) && Offset(x, y, width) + 2 < width * height * 3
    ensures Render(pixels, width, height)[Offset(x, y, width) + k]
        == if LastAt(pixels, x, y).Some? then Channel(GetRGB(LastAt(pixels, x, y).value.color), k) else 0
    decreases |pixels|
  {
    CellInBuffer(x, y, width, height);
    if pixels != [] {
      var init, p := pixels[..|pixels| - 1], pixels[|pixels| - 1];
      RenderCell(init, width, height, x, y, k);
      if InImage(p, width, height) && !(p.x == x && p.y == y) {
        CellInBuffer(p.x, p.y, width, height);
        DistinctCells(p.x, p.y, x, y, width, 0, k);
        DistinctCells(p.x, p.y, x, y, width, 1, k);
        DistinctCells(p.x, p.y, x, y, width, 2, k);
      }
    }
  }

  /** A pixel outside the image leaves the buffer as it was. */
  lemma OutsideSkipped(pixels: seq<Pixel>, p: Pixel, width: int, height: int)
    requires 0 <= width && 0 <= height && !InImage(p, width, height)
    ensures Render(pixels + [p], width, height) == Render(pixels, width, height)
  {
    assert (pixels + [p])[..|pixels|] == pixels;
  }

  /**
   * The buffer-filling loop of `exportPNG`: a zeroed `width * height * 3`
   * byte buffer, and for each pixel inside the image its palette colour at
   * byte `(y * width + x) * 3`.
   */
  method ExportImage(pixels: seq<Pixel>, width: int32, height: int32) returns (image: seq<uint8>)
    requires 0 <= width && 0 <= height
    ensures image == Render(pixels, width, height)
  {
    var buffer := new uint8[width * height * 3](_ => 0);
    assert buffer[..] == Render(pixels[..0], width, height);
    for k := 0 to |pixels|
      invariant buffer[..] == Render(pixels[..k], width, height)
    {
      assert pixels[..k + 1][..k] == pixels[..k];
      PaintInto(buffer, pixels[k], width, height);
    }
    assert pixels[..|pixels|] == pixels;
    image := buffer[..];
  }

  /** One turn of the loop: a pixel inside the image writes its three colour bytes, any other is skipped. */
  method PaintInto(buffer: array<uint8>, pixel: Pixel, width: int, height: int)
    requires 0 <= width && 0 <= height && buffer.Length == width * height * 3
    modifies buffer
    ensures buffer[..] == Paint(old(buffer[..]), pixel, width, height)
  {
    if 0 <= pixel.x < width && 0 <= pixel.y < height {
      CellInBuffer(pixel.x, pixel.y, width, height);
      var index := (pixel.y * width + pixel.x) * 3;
      var c := GetRGB(pixel.color);
      buffer[index + 0] := c.r;
      buffer[index + 1] := c.g;
      buffer[index + 2] := c.b;
    }
  }
}
