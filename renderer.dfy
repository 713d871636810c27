/**
 * The renderer test's picture of the grid: each cell value read back from
 * the renderer is coloured with the 12-bit sandpile palette, split into its
 * red, green and blue nibbles, and stored in a 640 x 480 image whose first
 * 240 x 240 pixels show the grid.
 */
module Renderer {
  /** A pixel of the captured image: three 4-bit channels. */
  datatype Rgb = Rgb(red: int, green: int, blue: int)

  const Width: int := 640
  const Height: int := 480
  /** Side of the rendered square of the grid, in pixels. */
  const GridSide: int := 240
  /** Horizontal offset of the grid inside the renderer's raster. */
  const OffsetX: int := 80

  /**
   * The cell-value palette: 0 empty (black), 1 light, 2 yellow, 3 brown,
   * 4 red; any other value is drawn black.  Only the empty cell and the
   * out-of-range values are black.
   */
  function Palette(value: int): (color: int)
    ensures 0 <= color < 0x1000
    ensures color == 0x000 <==> !(1 <= value <= 4)
  {
    match value
    case 0 => 0x000
    case 1 => 0xFDB
    case 2 => 0xFF0
    case 3 => 0x842
    case 4 => 0xF00
    case _ => 0x000
  }

  /** `(color >> 8) & 0xF`, `(color >> 4) & 0xF` and `color & 0xF`. */
  function SplitRgb(color: int): (rgb: Rgb)
    ensures 0 <= rgb.red < 16 && 0 <= rgb.green < 16 && 0 <= rgb.blue < 16
  {
    Rgb((color / 0x100) % 0x10, (color / 0x10) % 0x10, color % 0x10)
  }

  /** The 12-bit colour made of three nibbles, red in bits 11:8. */
  function JoinRgb(rgb: Rgb): int {
    rgb.red * 0x100 + rgb.green * 0x10 + rgb.blue
  }

  /** Splitting a 12-bit colour and joining the nibbles gives the colour back. */
  lemma JoinSplit(color: int)
    requires 0 <= color < 0x1000
    ensures JoinRgb(SplitRgb(color)) == color
  {
    var q := color / 0x10;
    assert color == q * 0x10 + color % 0x10;
    assert q == (q / 0x10) * 0x10 + q % 0x10;
    assert q / 0x10 == color / 0x100;
    assert color / 0x100 < 0x10;
  }

  /** Three nibbles joined and split again come back unchanged. */
  lemma SplitJoin(rgb: Rgb)
    requires 0 <= rgb.red < 16 && 0 <= rgb.green < 16 && 0 <= rgb.blue < 16
    ensures SplitRgb(JoinRgb(rgb)) == rgb
  {
    var c := JoinRgb(rgb);
    var q := rgb.red * 0x10 + rgb.green;
    assert c == q * 0x10 + rgb.blue;
    assert c / 0x10 == q && c % 0x10 == rgb.blue;
    assert q / 0x10 == rgb.red && q % 0x10 == rgb.green;
    assert c / 0x100 == q / 0x10;
  }

  /**
   * Pixel (x, y) of the captured image, given the value the renderer reports
   * at each raster position: inside the grid square it is the coloured value
   * read at (x + 80, y), elsewhere the black background.
   */
  function ImagePixel(pixelData: (int, int) -> int, x: int, y: int): Rgb {
    if 0 <= x < GridSide && 0 <= y < GridSide then SplitRgb(Palette(pixelData(x + OffsetX, y)))
    else Rgb(0, 0, 0)
  }

  /** A pixel of the image recombines to the palette colour of the value shown there. */
  lemma ImagePixelColour(pixelData: (int, int) -> int, x: int, y: int)
    requires 0 <= x < GridSide && 0 <= y < GridSide
    ensures JoinRgb(ImagePixel(pixelData, x, y)) == Palette(pixelData(x + OffsetX, y))
  {
    JoinSplit(Palette(pixelData(x + OffsetX, y)));
  }

  /**
   * Capture the grid: a black 640 x 480 image, then for each row y and
   * column x of the 240 x 240 square the value at raster position (x + 80, y)
   * coloured and split into nibbles.
   */
  method GetGridImage(pixelData: (int, int) -> int) returns (img: array2<Rgb>)
    ensures fresh(img) && img.Length0 == Width && img.Length1 == Height
    ensures forall x, y :: 0 <= x < Width && 0 <= y < Height ==> img[x, y] == ImagePixel(pixelData, x, y)
  {
    img := new Rgb[Width, Height]((_, _) => Rgb(0, 0, 0));
    for y := 0 to GridSide
      invariant forall i, j :: 0 <= i < Width && 0 <= j < Height ==>
        img[i, j] == if j < y then ImagePixel(pixelData, i, j) else Rgb(0, 0, 0)
    {
      for x := 0 to GridSide
        invariant forall i, j :: 0 <= i < Width && 0 <= j < Height ==>
          img[i, j] == if j < y || (j == y && i < x) then ImagePixel(pixelData, i, j) else Rgb(0, 0, 0)
      {
        var pixelValue := pixelData(x + OffsetX, y);
        var color := Palette(pixelValue);
        img[x, y] := SplitRgb(color);
      }
    }
  }
}
