/**
 * create_image_mosaic (src/mosaic_creator.py, lines 41-62): allocate a black
 * canvas of g*h rows and g*w columns and copy tile `idx` into the block at
 * grid row idx / g and grid column idx % g. The numpy canvas of shape
 * (g*h, g*w, 3) and dtype uint8 is an array2 of three-byte pixels.
 */
module Compositor {
  import opened DivMod
  import opened GridLayout

  newtype Byte = x: int | 0 <= x < 256

  /** One pixel: three 8-bit channels, in the order the decoder produced them. */
  datatype Pixel = Pixel(c0: Byte, c1: Byte, c2: Byte)

  /** The value np.zeros gives every pixel of a new canvas. */
  const Black := Pixel(0, 0, 0)

  /** An image of `height` rows of `width` pixels each. */
  datatype Image = Image(height: nat, width: nat, rows: seq<seq<Pixel>>)

  predicate HasShape(img: Image, h: nat, w: nat) {
    img.height == h && img.width == w && |img.rows| == h &&
    forall r :: 0 <= r < h ==> |img.rows[r]| == w
  }

  predicate AllHaveShape(tiles: seq<Image>, h: nat, w: nat) {
    forall i :: 0 <= i < |tiles| ==> HasShape(tiles[i], h, w)
  }

  /** `images[:n]`: the first n images, or all of them when there are fewer. */
  function Prefix<T>(images: seq<T>, n: nat): (r: seq<T>)
    ensures |r| == if n <= |images| then n else |images|
    ensures forall i :: 0 <= i < |r| ==> r[i] == images[i]
  {
    if n <= |images| then images[..n] else images
  }

  /**
   * The pixel at row y, column x of a canvas of g-by-g blocks of h-by-w pixels
   * once the first `placed` tiles have been copied in: the matching pixel of
   * the tile whose cell holds (y, x), or black if that tile is not placed.
   */
  function PaintedPixel(tiles: seq<Image>, placed: nat, g: nat, h: nat, w: nat, y: nat, x: nat): Pixel
    requires placed <= |tiles| && AllHaveShape(tiles, h, w)
    requires y < g * h && x < g * w
  {
    CellIsNonNegative(g, h, w, y, x);
    var cell := (y / h) * g + x / w;
    if cell < placed then tiles[cell].rows[y % h][x % w] else Black
  }

  /** The finished mosaic: every tile placed. */
  function MosaicPixel(tiles: seq<Image>, g: nat, h: nat, w: nat, y: nat, x: nat): Pixel
    requires AllHaveShape(tiles, h, w)
    requires y < g * h && x < g * w
  {
    PaintedPixel(tiles, |tiles|, g, h, w, y, x)
  }

  /** The pixel (y, x) lies in the block of grid cell `idx`. */
  predicate InBlock(g: nat, h: nat, w: nat, idx: nat, y: nat, x: nat)
    requires g > 0
  {
    var top, left := (idx / g) * h, (idx % g) * w;
    top <= y < top + h && left <= x < left + w
  }

  /**
   * A canvas pixel belongs to cell `idx` exactly when it lies in that cell's
   * block, and then its offset in the block is its offset in the tile.
   */
  lemma CellOfPixel(g: nat, h: nat, w: nat, idx: nat, y: nat, x: nat)
    requires y < g * h && x < g * w
    ensures g > 0 && h > 0 && w > 0
    ensures ((y / h) * g + x / w == idx) <==> InBlock(g, h, w, idx, y, x)
    ensures InBlock(g, h, w, idx, y, x) ==> y % h == y - (idx / g) * h && x % w == x - (idx % g) * w
  {
    CanvasHasPositiveSides(g, h, w, y, x);
    DivBelow(x, g, w);
    DivIsMonotonic(0, x, w);
    RowMajorPosition(y / h, x / w, g, idx);
    BlockOffset(y, h, idx / g);
    BlockOffset(x, w, idx % g);
  }

  lemma CellIsNonNegative(g: nat, h: nat, w: nat, y: nat, x: nat)
    requires y < g * h && x < g * w
    ensures h > 0 && w > 0 && 0 <= (y / h) * g + x / w
  {
    CanvasHasPositiveSides(g, h, w, y, x);
    DivIsMonotonic(0, y, h);
    DivIsMonotonic(0, x, w);
    MulIsMonotonic(0, y / h, g);
  }

  /** A canvas that has a pixel (y, x) has a positive grid side and positive tile sides. */
  lemma CanvasHasPositiveSides(g: nat, h: nat, w: nat, y: nat, x: nat)
    requires y < g * h && x < g * w
    ensures g > 0 && h > 0 && w > 0
  {
  }

  lemma NothingPlacedIsBlack(tiles: seq<Image>, g: nat, h: nat, w: nat, y: nat, x: nat)
    requires AllHaveShape(tiles, h, w)
    requires y < g * h && x < g * w
    ensures PaintedPixel(tiles, 0, g, h, w, y, x) == Black
  {
    assert h > 0 && w > 0;
    DivIsMonotonic(0, y, h);
    DivIsMonotonic(0, x, w);
    MulIsMonotonic(0, y / h, g);
  }

  /** The block of any cell of the g-by-g grid lies inside the canvas. */
  lemma BlockFitsCanvas(g: nat, h: nat, w: nat, idx: nat)
    requires idx < g * g
    ensures g > 0
    ensures 0 <= (idx / g) * h && (idx / g) * h + h <= g * h
    ensures 0 <= (idx % g) * w && (idx % g) * w + w <= g * w
  {
    var row, col := idx / g, idx % g;
    DivBelow(idx, g, g);
    MulIsMonotonic(0, row, h);
    MulIsMonotonic(0, col, w);
    MulIsMonotonic(row + 1, g, h);
    MulIsMonotonic(col + 1, g, w);
    assert (row + 1) * h == row * h + h && (col + 1) * w == col * w + w;
  }

  /** Copying tile `idx` turns the canvas with `idx` tiles placed into the canvas with idx + 1. */
  lemma PlacingNextTile(tiles: seq<Image>, idx: nat, g: nat, h: nat, w: nat, y: nat, x: nat)
    requires idx < |tiles| && AllHaveShape(tiles, h, w)
    requires y < g * h && x < g * w
    ensures g > 0
    ensures PaintedPixel(tiles, idx + 1, g, h, w, y, x) ==
      if InBlock(g, h, w, idx, y, x) then tiles[idx].rows[y - (idx / g) * h][x - (idx % g) * w]
      else PaintedPixel(tiles, idx, g, h, w, y, x)
  {
    CellOfPixel(g, h, w, idx, y, x);
  }

  /**
   * The slice assignment mosaic[top:top+h, left:left+w] = img: the block takes
   * the image's pixels and every other pixel keeps its value.
   */
  method PasteTile(canvas: array2<Pixel>, img: Image, top: nat, left: nat)
    requires HasShape(img, img.height, img.width)
    requires top + img.height <= canvas.Length0 && left + img.width <= canvas.Length1
    modifies canvas
    ensures forall y, x :: 0 <= y < canvas.Length0 && 0 <= x < canvas.Length1 ==>
      canvas[y, x] == if top <= y < top + img.height && left <= x < left + img.width
                      then img.rows[y - top][x - left] else old(canvas[y, x])
  {
    var h, w := img.height, img.width;
    for dy := 0 to h
      invariant forall y, x :: 0 <= y < canvas.Length0 && 0 <= x < canvas.Length1 ==>
        canvas[y, x] == if top <= y < top + dy && left <= x < left + w
                        then img.rows[y - top][x - left] else old(canvas[y, x])
    {
      for dx := 0 to w
        invariant forall y, x :: 0 <= y < canvas.Length0 && 0 <= x < canvas.Length1 ==>
          canvas[y, x] == if (top <= y < top + dy && left <= x < left + w) || (y == top + dy && left <= x < left + dx)
                          then img.rows[y - top][x - left] else old(canvas[y, x])
      {
        canvas[top + dy, left + dx] := img.rows[dy][dx];
      }
    }
  }

  /**
   * create_image_mosaic: with g the least side whose square holds num_images
   * and h-by-w the shape of the first image, a canvas of g*h by g*w pixels
   * holding the first min(|images|, num_images) images in row-major cells, and
   * black everywhere else.
   */
  method CreateImageMosaic(images: seq<Image>, numImages: int) returns (mosaic: array2<Pixel>)
    requires numImages >= 1 && |images| >= 1
    requires AllHaveShape(Prefix(images, numImages), images[0].height, images[0].width)
    ensures fresh(mosaic)
    ensures var g, h, w := GridSize(numImages), images[0].height, images[0].width;
      && mosaic.Length0 == g * h && mosaic.Length1 == g * w
      && forall y, x :: 0 <= y < mosaic.Length0 && 0 <= x < mosaic.Length1 ==>
           mosaic[y, x] == MosaicPixel(Prefix(images, numImages), g, h, w, y, x)
  {
    var g := GridSize(numImages);
    var selected := Prefix(images, numImages);
    var h, w := selected[0].height, selected[0].width;
    GridSizeBounds(numImages);
    mosaic := new Pixel[g * h, g * w]((y, x) => Black);
    forall y, x | 0 <= y < g * h && 0 <= x < g * w
      ensures mosaic[y, x] == PaintedPixel(selected, 0, g, h, w, y, x)
    {
      NothingPlacedIsBlack(selected, g, h, w, y, x);
    }
    for idx := 0 to |selected|
      invariant forall y, x :: 0 <= y < g * h && 0 <= x < g * w ==>
        mosaic[y, x] == PaintedPixel(selected, idx, g, h, w, y, x)
    {
      var row, col := idx / g, idx % g;
      BlockFitsCanvas(g, h, w, idx);
      PasteTile(mosaic, selected[idx], row * h, col * w);
      forall y, x | 0 <= y < g * h && 0 <= x < g * w
        ensures mosaic[y, x] == PaintedPixel(selected, idx + 1, g, h, w, y, x)
      {
        PlacingNextTile(selected, idx, g, h, w, y, x);
      }
    }
  }

  /**
   * The block of cell `idx` holds tile `idx` exactly: the pixel at offset
   * (dy, dx) in the block is the tile's pixel (dy, dx).
   */
  lemma TileBlockHoldsTile(tiles: seq<Image>, g: nat, h: nat, w: nat, idx: nat, y: nat, x: nat)
    requires AllHaveShape(tiles, h, w) && idx < |tiles|
    requires y < g * h && x < g * w && InBlock(g, h, w, idx, y, x)
    ensures MosaicPixel(tiles, g, h, w, y, x) == tiles[idx].rows[y - (idx / g) * h][x - (idx % g) * w]
  {
    CellOfPixel(g, h, w, idx, y, x);
    PixelOfCell(tiles, |tiles|, g, h, w, y, x, idx, y - (idx / g) * h, x - (idx % g) * w);
  }

  /** Reading PaintedPixel once the pixel's cell and its offset in the cell are known. */
  lemma PixelOfCell(tiles: seq<Image>, placed: nat, g: nat, h: nat, w: nat, y: nat, x: nat, cell: nat, dy: nat, dx: nat)
    requires placed <= |tiles| && AllHaveShape(tiles, h, w)
    requires y < g * h && x < g * w && h > 0 && w > 0
    requires (y / h) * g + x / w == cell && y % h == dy && x % w == dx
    ensures cell < placed ==> dy < h && dx < w
    ensures PaintedPixel(tiles, placed, g, h, w, y, x) == if cell < placed then tiles[cell].rows[dy][dx] else Black
  {
  }

  /** A pixel outside the blocks of all the tiles is still black. */
  lemma OutsideTilesIsBlack(tiles: seq<Image>, g: nat, h: nat, w: nat, y: nat, x: nat)
    requires AllHaveShape(tiles, h, w)
    requires y < g * h && x < g * w
    requires forall idx :: 0 <= idx < |tiles| ==> !InBlock(g, h, w, idx, y, x)
    ensures MosaicPixel(tiles, g, h, w, y, x) == Black
  {
    assert g > 0 && h > 0 && w > 0;
    DivIsMonotonic(0, y, h);
    DivIsMonotonic(0, x, w);
    MulIsMonotonic(0, y / h, g);
    var cell: nat := (y / h) * g + x / w;
    CellOfPixel(g, h, w, cell, y, x);
  }

  /** Sixteen 10-by-10 tiles: a 4-by-4 grid, and cell (3, 3) holds tile 15. */
  lemma SixteenTiles(tiles: seq<Image>, dy: nat, dx: nat)
    requires |tiles| == 16 && AllHaveShape(tiles, 10, 10) && dy < 10 && dx < 10
    ensures GridSize(16) == 4 && GridSize(16) * 10 == 40
    ensures MosaicPixel(tiles, 4, 10, 10, 30 + dy, 30 + dx) == tiles[15].rows[dy][dx]
  {
    GridSizeExamples();
    TileBlockHoldsTile(tiles, 4, 10, 10, 15, 30 + dy, 30 + dx);
  }
}
