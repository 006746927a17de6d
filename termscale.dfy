/** The terminal back end of demos/vc.c and its copies in examples/3d.c and
    examples/triangle.c: the rendered WIDTH x HEIGHT canvas is cut into
    SCALE_DOWN_FACTOR x SCALE_DOWN_FACTOR blocks, each block is averaged
    channel by channel, and the average is drawn as one of six characters,
    printed twice per cell. The canvas constructors (olivec_canvas,
    olivec_subcanvas) are not part of this model: a canvas is a window
    (offset, width, height, stride) into the pixel buffer. */
module TermScale {
  import opened CTypes
  import Olive

  /** The brightness ramp, darkest first. */
  const RAMP: seq<char> := " .:a@#"

  /** demos/vc.c weighs brightness by alpha; the copies in examples/ ignore
      alpha. */
  datatype Flavour = Demo | Example

  // ---------------------------------------------------------------------
  // Channels

  /** OLIVEC_RED/GREEN/BLUE/ALPHA: `(color & mask) >> (8*k)`, the k-th
      byte from the least significant up. */
  function Channel(c: u32, k: nat): u8
    requires k < 4
  {
    Olive.Unpack(c)[k]
  }

  /** `x & 0xFF` */
  function Mask(x: nat): (m: u8)
    ensures x < 0x100 ==> m == x
  {
    x % 0x100
  }

  /** OLIVEC_RGBA: each argument masked to its low byte, r in byte 0 up to
      a in byte 3. */
  function Rgba(r: nat, g: nat, b: nat, a: nat): (c: u32)
    ensures Olive.Unpack(c) == [Mask(r), Mask(g), Mask(b), Mask(a)]
  {
    Olive.UnpackPack([Mask(r), Mask(g), Mask(b), Mask(a)]);
    Olive.Pack([Mask(r), Mask(g), Mask(b), Mask(a)])
  }

  /** OLIVEC_RGBA of a colour's channels is the colour. */
  lemma RgbaOfChannels(c: u32)
    ensures Rgba(Channel(c, 0), Channel(c, 1), Channel(c, 2), Channel(c, 3)) == c
  {
    var u := Olive.Unpack(c);
    var x := Rgba(u[0], u[1], u[2], u[3]);
    assert Olive.Unpack(x) == u;
    Olive.PackUnpack(x);
    Olive.PackUnpack(c);
  }

  /** The extractors give back the bytes OLIVEC_RGBA packed. */
  lemma ChannelsOfRgba(r: u8, g: u8, b: u8, a: u8)
    ensures Channel(Rgba(r, g, b, a), 0) == r && Channel(Rgba(r, g, b, a), 1) == g
    ensures Channel(Rgba(r, g, b, a), 2) == b && Channel(Rgba(r, g, b, a), 3) == a
  {
    var u := Olive.Unpack(Rgba(r, g, b, a));
    assert u == [r, g, b, a];
  }

  // ---------------------------------------------------------------------
  // Colour to character

  function Max3(r: int, g: int, b: int): int {
    Max(Max(r, g), b)
  }

  /** The brightness color_to_char ranks: the largest colour channel, scaled
      by alpha in demos/vc.c. */
  function Brightness(flavour: Flavour, pixel: u32): (bright: nat)
    ensures bright <= 255
    ensures flavour == Example ==> bright == Max3(Channel(pixel, 0), Channel(pixel, 1), Channel(pixel, 2))
    ensures flavour == Demo ==> bright <= Max3(Channel(pixel, 0), Channel(pixel, 1), Channel(pixel, 2))
  {
    var bright := Max3(Channel(pixel, 0), Channel(pixel, 1), Channel(pixel, 2));
    if flavour == Example then bright
    else
      ScaleDown(bright, Channel(pixel, 3), 255);
      bright * Channel(pixel, 3) / 255
  }

  /** color_to_char: the ramp entry at bright*6/256. */
  function ColorToChar(flavour: Flavour, pixel: u32): (c: char)
    ensures c in RAMP
  {
    RAMP[Brightness(flavour, pixel) * |RAMP| / 256]
  }

  /** The position of a ramp character. */
  function Rank(c: char): nat {
    if c == ' ' then 0 else if c == '.' then 1 else if c == ':' then 2
    else if c == 'a' then 3 else if c == '@' then 4 else 5
  }

  /** A fully transparent pixel is blank in the demo; a fully opaque one
      is drawn as in the examples; black is blank and white is '#'. */
  lemma ColorToCharLaws(p: u32, flavour: Flavour)
    ensures Channel(p, 3) == 0 ==> ColorToChar(Demo, p) == ' '
    ensures Channel(p, 3) == 255 ==> ColorToChar(Demo, p) == ColorToChar(Example, p)
    ensures Max3(Channel(p, 0), Channel(p, 1), Channel(p, 2)) == 0 ==> ColorToChar(flavour, p) == ' '
    ensures ColorToChar(Example, 0xFFFFFFFF) == '#'
  {
    assert Channel(0xFFFFFFFF, 0) == 255;
  }

  /** Brighter pixels never get a darker character. */
  lemma ColorToCharMonotone(p: u32, q: u32, flavour: Flavour)
    requires Brightness(flavour, p) <= Brightness(flavour, q)
    ensures Rank(ColorToChar(flavour, p)) <= Rank(ColorToChar(flavour, q))
  {
    var bp, bq := Brightness(flavour, p), Brightness(flavour, q);
    MulLe(bp, bq, 6);
    assert bp * 6 / 256 <= bq * 6 / 256;
    assert Rank(RAMP[bp * 6 / 256]) == bp * 6 / 256;
    assert Rank(RAMP[bq * 6 / 256]) == bq * 6 / 256;
  }

  // ---------------------------------------------------------------------
  // Index arithmetic

  /** The product a * b as repeated addition of b (MulIsProduct). The index
      arithmetic below is written with it, so that stepping a row or a
      column is one addition. */
  function Mul(a: nat, b: nat): nat {
    if a == 0 then 0 else Mul(a - 1, b) + b
  }

  lemma {:induction false} MulIsProduct(a: nat, b: nat)
    ensures Mul(a, b) == a * b
  {
    if a > 0 {
      MulIsProduct(a - 1, b);
      assert a * b == (a - 1) * b + b;
    }
  }

  lemma {:induction false} MulMono(a: nat, c: nat, b: nat)
    requires a <= c
    ensures Mul(a, b) <= Mul(c, b)
  {
    if a < c {
      MulMono(a, c - 1, b);
    }
  }

  // ---------------------------------------------------------------------
  // Averaging a block

  /** A canvas: `width` x `height` pixels starting at `offset`, rows
      `stride` words apart. */
  datatype Window = Window(offset: nat, width: nat, height: nat, stride: nat)

  /** OLIVEC_PIXEL(oc, x, y): offset + y*stride + x. */
  function PixelIndex(w: Window, x: nat, y: nat): nat {
    w.offset + Mul(y, w.stride) + x
  }

  /** Every pixel of the window lies in the buffer. */
  predicate Fits(pixels: seq<u32>, w: Window) {
    w.width <= w.stride && (w.height > 0 ==> w.offset + Mul(w.height - 1, w.stride) + w.width <= |pixels|)
  }

  lemma PixelInRange(pixels: seq<u32>, w: Window, x: nat, y: nat)
    requires Fits(pixels, w) && x < w.width && y < w.height
    ensures PixelIndex(w, x, y) < |pixels|
  {
    MulMono(y, w.height - 1, w.stride);
  }

  /** Channel k summed over the first n pixels of row y. */
  function RowSum(pixels: seq<u32>, w: Window, k: nat, y: nat, n: nat): (s: nat)
    requires Fits(pixels, w) && k < 4 && y < w.height && n <= w.width
    ensures s <= 255 * n
  {
    if n == 0 then 0
    else
      PixelInRange(pixels, w, n - 1, y);
      RowSum(pixels, w, k, y, n - 1) + Channel(pixels[PixelIndex(w, n - 1, y)], k)
  }

  /** Channel k summed over the first m rows. */
  function BlockSum(pixels: seq<u32>, w: Window, k: nat, m: nat): nat
    requires Fits(pixels, w) && k < 4 && m <= w.height
  {
    if m == 0 then 0
    else BlockSum(pixels, w, k, m - 1) + RowSum(pixels, w, k, m - 1, w.width)
  }

  /** No channel sum exceeds 255 per pixel. */
  lemma {:induction false} BlockSumBound(pixels: seq<u32>, w: Window, k: nat, m: nat)
    requires Fits(pixels, w) && k < 4 && m <= w.height
    ensures BlockSum(pixels, w, k, m) <= 255 * Mul(m, w.width)
  {
    if m > 0 {
      BlockSumBound(pixels, w, k, m - 1);
    }
  }

  /** The number of pixels of a window, oc.width*oc.height. */
  function Area(w: Window): nat {
    Mul(w.height, w.width)
  }

  lemma AreaIsProduct(w: Window)
    ensures Area(w) == w.width * w.height
    ensures w.width > 0 && w.height > 0 ==> Area(w) >= w.width
  {
    MulIsProduct(w.height, w.width);
    if w.height > 0 {
      MulMono(1, w.height, w.width);
    }
  }

  /** The per-channel floor mean over the whole window. */
  function Mean(pixels: seq<u32>, w: Window, k: nat): (m: nat)
    requires Fits(pixels, w) && k < 4 && w.width > 0 && w.height > 0
    ensures m <= 255
  {
    BlockSumBound(pixels, w, k, w.height);
    AreaIsProduct(w);
    MeanBound(BlockSum(pixels, w, k, w.height), Area(w));
    BlockSum(pixels, w, k, w.height) / Area(w)
  }

  lemma MeanBound(s: nat, n: nat)
    requires n > 0 && s <= 255 * n
    ensures s / n <= 255
  {
  }

  /** The colour of a window: its per-channel floor means. */
  function ChunkColor(pixels: seq<u32>, w: Window): (c: u32)
    requires Fits(pixels, w) && w.width > 0 && w.height > 0
    ensures forall k :: 0 <= k < 4 ==> Channel(c, k) == Mean(pixels, w, k)
  {
    Rgba(Mean(pixels, w, 0), Mean(pixels, w, 1), Mean(pixels, w, 2), Mean(pixels, w, 3))
  }

  /** compress_pixels_chunk: sums each channel over the window, divides by
      the number of pixels, and packs the four means. */
  method CompressPixelsChunk(pixels: seq<u32>, w: Window) returns (c: u32)
    requires Fits(pixels, w) && w.width > 0 && w.height > 0
    ensures c == ChunkColor(pixels, w)
  {
    var r, g, b, a := SumBlock(pixels, w);
    AreaIsProduct(w);
    var n := w.width * w.height;
    assert r / n == Mean(pixels, w, 0) && g / n == Mean(pixels, w, 1);
    assert b / n == Mean(pixels, w, 2) && a / n == Mean(pixels, w, 3);
    c := Rgba(r / n, g / n, b / n, a / n);
  }

  /** The outer loop of compress_pixels_chunk: the channel sums of all rows. */
  method SumBlock(pixels: seq<u32>, w: Window) returns (r: nat, g: nat, b: nat, a: nat)
    requires Fits(pixels, w)
    ensures r == BlockSum(pixels, w, 0, w.height) && g == BlockSum(pixels, w, 1, w.height)
    ensures b == BlockSum(pixels, w, 2, w.height) && a == BlockSum(pixels, w, 3, w.height)
  {
    r, g, b, a := 0, 0, 0, 0;
    var y := 0;
    while y < w.height
      invariant 0 <= y <= w.height
      invariant r == BlockSum(pixels, w, 0, y) && g == BlockSum(pixels, w, 1, y)
      invariant b == BlockSum(pixels, w, 2, y) && a == BlockSum(pixels, w, 3, y)
    {
      var rowR, rowG, rowB, rowA := SumRow(pixels, w, y);
      r, g, b, a := r + rowR, g + rowG, b + rowB, a + rowA;
      y := y + 1;
    }
  }

  /** The inner loop of compress_pixels_chunk: row y's channel sums. */
  method SumRow(pixels: seq<u32>, w: Window, y: nat) returns (r: nat, g: nat, b: nat, a: nat)
    requires Fits(pixels, w) && y < w.height
    ensures r == RowSum(pixels, w, 0, y, w.width) && g == RowSum(pixels, w, 1, y, w.width)
    ensures b == RowSum(pixels, w, 2, y, w.width) && a == RowSum(pixels, w, 3, y, w.width)
  {
    r, g, b, a := 0, 0, 0, 0;
    var x := 0;
    while x < w.width
      invariant 0 <= x <= w.width
      invariant r == RowSum(pixels, w, 0, y, x) && g == RowSum(pixels, w, 1, y, x)
      invariant b == RowSum(pixels, w, 2, y, x) && a == RowSum(pixels, w, 3, y, x)
    {
      RowSumStep(pixels, w, y, x);
      var p := pixels[PixelIndex(w, x, y)];
      r := r + Channel(p, 0);
      g := g + Channel(p, 1);
      b := b + Channel(p, 2);
      a := a + Channel(p, 3);
      x := x + 1;
    }
  }

  lemma RowSumStep(pixels: seq<u32>, w: Window, y: nat, x: nat)
    requires Fits(pixels, w) && y < w.height && x < w.width
    ensures PixelIndex(w, x, y) < |pixels|
    ensures forall k :: 0 <= k < 4 ==>
      RowSum(pixels, w, k, y, x + 1) == RowSum(pixels, w, k, y, x) + Channel(pixels[PixelIndex(w, x, y)], k)
  {
    PixelInRange(pixels, w, x, y);
  }

  /** Every pixel of the window is p. */
  predicate Uniform(pixels: seq<u32>, w: Window, p: u32) {
    forall x, y :: 0 <= x < w.width && 0 <= y < w.height && PixelIndex(w, x, y) < |pixels| ==> pixels[PixelIndex(w, x, y)] == p
  }

  /** A window of identical pixels averages to that pixel. */
  lemma {:induction false} UniformMean(pixels: seq<u32>, w: Window, k: nat, p: u32)
    requires Fits(pixels, w) && k < 4 && w.width > 0 && w.height > 0
    requires Uniform(pixels, w, p)
    ensures Mean(pixels, w, k) == Channel(p, k)
  {
    forall y | 0 <= y < w.height
      ensures RowSum(pixels, w, k, y, w.width) == Mul(w.width, Channel(p, k))
    {
      UniformRow(pixels, w, k, p, y, w.width);
    }
    UniformBlock(pixels, w, k, p, w.height);
    UniformQuotient(w.height, w.width, Channel(p, k));
  }

  lemma {:induction false} UniformRow(pixels: seq<u32>, w: Window, k: nat, p: u32, y: nat, n: nat)
    requires Fits(pixels, w) && k < 4 && y < w.height && n <= w.width
    requires Uniform(pixels, w, p)
    ensures RowSum(pixels, w, k, y, n) == Mul(n, Channel(p, k))
  {
    if n > 0 {
      UniformRow(pixels, w, k, p, y, n - 1);
      PixelInRange(pixels, w, n - 1, y);
      assert pixels[PixelIndex(w, n - 1, y)] == p;
    }
  }

  lemma {:induction false} UniformBlock(pixels: seq<u32>, w: Window, k: nat, p: u32, m: nat)
    requires Fits(pixels, w) && k < 4 && m <= w.height
    requires forall y :: 0 <= y < w.height ==> RowSum(pixels, w, k, y, w.width) == Mul(w.width, Channel(p, k))
    ensures BlockSum(pixels, w, k, m) == Mul(m, Mul(w.width, Channel(p, k)))
  {
    if m > 0 {
      UniformBlock(pixels, w, k, p, m - 1);
    }
  }

  lemma UniformQuotient(h: nat, w: nat, c: nat)
    requires h > 0 && w > 0
    ensures Mul(h, w) > 0 && Mul(h, Mul(w, c)) / Mul(h, w) == c
  {
    var wc, n := Mul(w, c), Mul(h, w);
    MulIsProduct(w, c);
    MulIsProduct(h, wc);
    MulIsProduct(h, w);
    Rearrange(h, w, c);
    DivModUnique(Mul(h, wc), n, c, 0);
  }

  lemma Rearrange(h: nat, w: nat, c: nat)
    requires h > 0 && w > 0
    ensures h * (w * c) == c * (h * w) && h * w > 0
  {
    MulLe(1, h, w);
  }

  // ---------------------------------------------------------------------
  // Compressing the canvas

  /** The block of cell (x, y): olivec_subcanvas of the full canvas at
      (x*factor, y*factor) with size factor x factor. */
  function Block(width: nat, factor: nat, x: nat, y: nat): Window {
    Window(Mul(Mul(y, factor), width) + Mul(x, factor), factor, factor, width)
  }

  /** The static asserts: the factor divides both dimensions. */
  predicate Divisible(width: nat, height: nat, factor: nat) {
    factor > 0 && width % factor == 0 && height % factor == 0
  }

  lemma BlockFits(pixels: seq<u32>, width: nat, height: nat, factor: nat, x: nat, y: nat)
    requires Divisible(width, height, factor) && |pixels| == width * height
    requires x < width / factor && y < height / factor
    ensures Fits(pixels, Block(width, factor, x, y))
  {
    var f := factor;
    CellCorner(width, f, x);
    CellCorner(height, f, y);
    MulIsProduct(y, f);
    MulIsProduct(y * f, width);
    MulIsProduct(x, f);
    MulIsProduct(f - 1, width);
    Span(y * f, x * f, f, width, height);
  }

  /** A cell's block starts at i*factor and ends inside the dimension. */
  lemma CellCorner(size: nat, f: nat, i: nat)
    requires f > 0 && size % f == 0 && i < size / f
    ensures i * f + f <= size
  {
    assert size == size / f * f;
    MulLe(i + 1, size / f, f);
  }

  /** The last pixel of a block at row y0, column x0 lies in the buffer. */
  lemma Span(y0: nat, x0: nat, f: nat, width: nat, height: nat)
    requires f > 0 && y0 + f <= height && x0 + f <= width
    ensures y0 * width + x0 + (f - 1) * width + f <= height * width
  {
    MulLe(y0 + f - 1, height - 1, width);
    MulSub(y0 + f, 1, width);
    MulSub(height, 1, width);
    assert (y0 + f) * width == y0 * width + f * width;
    assert (f - 1) * width == f * width - width;
  }

  /** The character of cell (x, y). */
  function Cell(flavour: Flavour, pixels: seq<u32>, width: nat, height: nat, factor: nat, x: nat, y: nat): char
    requires Divisible(width, height, factor) && |pixels| == width * height
    requires x < width / factor && y < height / factor
  {
    BlockFits(pixels, width, height, factor, x, y);
    ColorToChar(flavour, ChunkColor(pixels, Block(width, factor, x, y)))
  }

  /** The characters of row y of the scaled-down canvas. */
  function RowCells(flavour: Flavour, pixels: seq<u32>, width: nat, height: nat, factor: nat, y: nat): (r: seq<char>)
    requires Divisible(width, height, factor) && |pixels| == width * height && y < height / factor
    ensures |r| == width / factor
    ensures forall x :: 0 <= x < |r| ==> r[x] == Cell(flavour, pixels, width, height, factor, x, y)
  {
    seq(width / factor, x requires 0 <= x < width / factor => Cell(flavour, pixels, width, height, factor, x, y))
  }

  /** The first `rows` rows of the scaled-down canvas, one after the other. */
  function Compressed(flavour: Flavour, pixels: seq<u32>, width: nat, height: nat, factor: nat, rows: nat): (r: seq<char>)
    requires Divisible(width, height, factor) && |pixels| == width * height && rows <= height / factor
    ensures |r| == Mul(rows, width / factor)
  {
    if rows == 0 then []
    else Compressed(flavour, pixels, width, height, factor, rows - 1) + RowCells(flavour, pixels, width, height, factor, rows - 1)
  }

  /** Cell (x, y) of the scaled-down canvas is at y*SCALED_DOWN_WIDTH + x. */
  lemma {:induction false} CompressedAt(flavour: Flavour, pixels: seq<u32>, width: nat, height: nat, factor: nat, rows: nat, x: nat, y: nat)
    requires Divisible(width, height, factor) && |pixels| == width * height && rows <= height / factor
    requires x < width / factor && y < rows
    ensures Mul(y, width / factor) + x < Mul(rows, width / factor)
    ensures Compressed(flavour, pixels, width, height, factor, rows)[Mul(y, width / factor) + x] == Cell(flavour, pixels, width, height, factor, x, y)
  {
    var prev := Compressed(flavour, pixels, width, height, factor, rows - 1);
    var row := RowCells(flavour, pixels, width, height, factor, rows - 1);
    AppendRowAt(prev, row, width / factor, rows, x, y);
    if y < rows - 1 {
      CompressedAt(flavour, pixels, width, height, factor, rows - 1, x, y);
    }
  }

  /** Slot y*w + x of a row-major block with one more row of width w. */
  lemma AppendRowAt<T>(prev: seq<T>, row: seq<T>, w: nat, rows: nat, x: nat, y: nat)
    requires 0 < rows && |prev| == Mul(rows - 1, w) && |row| == w && x < w && y < rows
    ensures Mul(y, w) + x < Mul(rows, w)
    ensures y < rows - 1 ==> Mul(y, w) + x < |prev| && (prev + row)[Mul(y, w) + x] == prev[Mul(y, w) + x]
    ensures y == rows - 1 ==> (prev + row)[Mul(y, w) + x] == row[x]
  {
    if y < rows - 1 {
      MulMono(y + 1, rows - 1, w);
    }
  }

  /** compress_pixels: one character per block, at y*SCALED_DOWN_WIDTH + x. */
  method CompressPixels(flavour: Flavour, pixels: seq<u32>, width: nat, height: nat, factor: nat, canvas: array<char>)
    requires Divisible(width, height, factor) && |pixels| == width * height
    requires canvas.Length == Mul(height / factor, width / factor)
    modifies canvas
    ensures canvas[..] == Compressed(flavour, pixels, width, height, factor, height / factor)
  {
    var sw, sh := width / factor, height / factor;
    var y := 0;
    while y < sh
      invariant 0 <= y <= sh && Mul(y, sw) <= canvas.Length
      invariant canvas[..Mul(y, sw)] == Compressed(flavour, pixels, width, height, factor, y)
    {
      CompressRow(flavour, pixels, width, height, factor, canvas, y);
      y := y + 1;
    }
    assert canvas[..] == canvas[..Mul(y, sw)];
  }

  /** The inner loop of compress_pixels: the cells of row y, stored at
      y*SCALED_DOWN_WIDTH + x; the rows above are left alone. */
  method CompressRow(flavour: Flavour, pixels: seq<u32>, width: nat, height: nat, factor: nat, canvas: array<char>, y: nat)
    requires Divisible(width, height, factor) && |pixels| == width * height && y < height / factor
    requires canvas.Length == Mul(height / factor, width / factor)
    modifies canvas
    ensures Mul(y + 1, width / factor) <= canvas.Length
    ensures canvas[..Mul(y + 1, width / factor)] ==
      old(canvas[..Mul(y, width / factor)]) + RowCells(flavour, pixels, width, height, factor, y)
  {
    var sw, sh := width / factor, height / factor;
    MulMono(y + 1, sh, sw);
    ghost var row := RowCells(flavour, pixels, width, height, factor, y);
    ghost var above := canvas[..Mul(y, sw)];
    var x := 0;
    while x < sw
      invariant 0 <= x <= sw
      invariant canvas[..Mul(y, sw) + x] == above + row[..x]
    {
      BlockFits(pixels, width, height, factor, x, y);
      var mean := CompressPixelsChunk(pixels, Block(width, factor, x, y));
      var c := ColorToChar(flavour, mean);
      ghost var cur := canvas[..];
      canvas[Mul(y, sw) + x] := c;
      WriteExtends(cur, canvas[..], above, row, Mul(y, sw), x, c);
      x := x + 1;
    }
    assert row[..x] == row;
    assert Mul(y + 1, sw) == Mul(y, sw) + sw;
  }

  /** Writing the next slot after a prefix `done + row[..x]` extends it by one. */
  lemma WriteExtends<T>(before: seq<T>, after: seq<T>, done: seq<T>, row: seq<T>, start: nat, x: nat, c: T)
    requires start == |done| && x < |row| && start + x < |before| && row[x] == c
    requires before[..start + x] == done + row[..x] && after == before[start + x := c]
    ensures after[..start + x + 1] == done + row[..x + 1]
  {
    assert after[..start + x + 1] == before[..start + x] + [c];
    assert row[..x + 1] == row[..x] + [c];
  }

  // ---------------------------------------------------------------------
  // Printing a frame

  /** One terminal row: each cell's character twice. */
  function RowText(cells: seq<char>): (t: seq<char>)
    ensures |t| == 2 * |cells|
    ensures forall i :: 0 <= i < |cells| ==> t[2 * i] == cells[i] && t[2 * i + 1] == cells[i]
  {
    if cells == [] then []
    else RowText(cells[..|cells| - 1]) + [cells[|cells| - 1], cells[|cells| - 1]]
  }

  /** The first `rows` rows of the character canvas (rows of sw cells), each
      ended by a newline. */
  function FrameText(canvas: seq<char>, sw: nat, rows: nat): (t: seq<char>)
    requires Mul(rows, sw) <= |canvas|
    ensures |t| == Mul(rows, 2 * sw + 1)
  {
    if rows == 0 then []
    else FrameText(canvas, sw, rows - 1) + RowText(canvas[Mul(rows - 1, sw)..Mul(rows, sw)]) + "\n"
  }

  /** The characters at columns 2x and 2x+1 of printed row y are cell
      (x, y), and every row ends in a newline at column 2*SCALED_DOWN_WIDTH. */
  lemma {:induction false} FrameLayout(canvas: seq<char>, sw: nat, rows: nat, x: nat, y: nat)
    requires Mul(rows, sw) <= |canvas| && x < sw && y < rows
    ensures Mul(y, 2 * sw + 1) + 2 * sw < |FrameText(canvas, sw, rows)|
    ensures Mul(y, sw) + x < |canvas|
    ensures FrameText(canvas, sw, rows)[Mul(y, 2 * sw + 1) + 2 * x] == canvas[Mul(y, sw) + x]
    ensures FrameText(canvas, sw, rows)[Mul(y, 2 * sw + 1) + 2 * x + 1] == canvas[Mul(y, sw) + x]
    ensures FrameText(canvas, sw, rows)[Mul(y, 2 * sw + 1) + 2 * sw] == '\n'
  {
    if y < rows - 1 {
      assert Mul(rows - 1, sw) <= |canvas| by {
        MulMono(rows - 1, rows, sw);
      }
      FrameLayout(canvas, sw, rows - 1, x, y);
      FrameTextExtends(canvas, sw, rows);
    } else {
      LastRowLayout(canvas, sw, rows, x);
    }
  }

  /** Printing one more row leaves the text before it unchanged. */
  lemma FrameTextExtends(canvas: seq<char>, sw: nat, rows: nat)
    requires Mul(rows, sw) <= |canvas| && rows > 0
    ensures FrameText(canvas, sw, rows - 1) <= FrameText(canvas, sw, rows)
  {
    var prefix := FrameText(canvas, sw, rows - 1);
    assert FrameText(canvas, sw, rows)[..|prefix|] == prefix;
  }

  /** FrameLayout for the last printed row. */
  lemma LastRowLayout(canvas: seq<char>, sw: nat, rows: nat, x: nat)
    requires Mul(rows, sw) <= |canvas| && x < sw && rows > 0
    ensures var line := Mul(rows - 1, 2 * sw + 1); var t := FrameText(canvas, sw, rows);
      line + 2 * sw < |t| && Mul(rows - 1, sw) + x < |canvas| &&
      t[line + 2 * x] == canvas[Mul(rows - 1, sw) + x] &&
      t[line + 2 * x + 1] == canvas[Mul(rows - 1, sw) + x] &&
      t[line + 2 * sw] == '\n'
  {
    var prefix := FrameText(canvas, sw, rows - 1);
    var row := canvas[Mul(rows - 1, sw)..Mul(rows, sw)];
    assert FrameText(canvas, sw, rows) == prefix + (RowText(row) + "\n");
    assert |row| == sw;
    assert row[x] == canvas[Mul(rows - 1, sw) + x];
    RowLayout(prefix, row, x);
  }

  /** In a row printed after `prefix`, cell x sits at offsets 2x and 2x+1
      past the prefix and the newline at 2|row|. */
  lemma RowLayout(prefix: seq<char>, row: seq<char>, x: nat)
    requires x < |row|
    ensures var t := prefix + (RowText(row) + "\n");
      |prefix| + 2 * |row| < |t| &&
      t[|prefix| + 2 * x] == row[x] && t[|prefix| + 2 * x + 1] == row[x] && t[|prefix| + 2 * |row|] == '\n'
  {
  }

  lemma FrameTextStep(canvas: seq<char>, sw: nat, sh: nat, y: nat, out: seq<char>, row: seq<char>)
    requires |canvas| == Mul(sh, sw) && y < sh
    requires Mul(y, sw) <= |canvas| && out == FrameText(canvas, sw, y)
    requires Mul(y, sw) + sw <= |canvas| && row == RowText(canvas[Mul(y, sw)..Mul(y, sw) + sw])
    ensures Mul(y + 1, sw) <= |canvas|
    ensures out + row + "\n" == FrameText(canvas, sw, y + 1)
  {
    MulMono(y + 1, sh, sw);
    assert Mul(y + 1, sw) == Mul(y, sw) + sw;
  }

  lemma RowTextSnoc(row: seq<char>, x: nat)
    requires x < |row|
    ensures RowText(row[..x + 1]) == RowText(row[..x]) + [row[x], row[x]]
  {
    assert row[..x + 1][..x] == row[..x];
  }

  /** The printing loops of main for one frame: the canvas holds sh rows of
      sw cells. */
  method PrintFrame(canvas: seq<char>, sw: nat, sh: nat) returns (out: seq<char>)
    requires |canvas| == Mul(sh, sw)
    ensures out == FrameText(canvas, sw, sh)
  {
    out := [];
    var y := 0;
    while y < sh
      invariant 0 <= y <= sh && Mul(y, sw) <= |canvas|
      invariant out == FrameText(canvas, sw, y)
    {
      MulMono(y + 1, sh, sw);
      var row := PrintRow(canvas, Mul(y, sw), sw);
      FrameTextStep(canvas, sw, sh, y, out, row);
      out := out + row + "\n";
      y := y + 1;
    }
  }

  /** The inner printing loop: each cell of the row twice. */
  method PrintRow(canvas: seq<char>, start: nat, sw: nat) returns (text: seq<char>)
    requires start + sw <= |canvas|
    ensures text == RowText(canvas[start..start + sw])
  {
    ghost var row := canvas[start..start + sw];
    text := [];
    var x := 0;
    while x < sw
      invariant 0 <= x <= sw
      invariant text == RowText(row[..x])
    {
      RowTextSnoc(row, x);
      text := text + [canvas[start + x], canvas[start + x]];
      x := x + 1;
    }
    assert row[..sw] == row;
  }

  // ---------------------------------------------------------------------
  // The examples' constants

  const EXAMPLE_WIDTH: nat := 800
  const EXAMPLE_HEIGHT: nat := 600
  const EXAMPLE_SCALE_DOWN_FACTOR: nat := 40
  const GRID_COUNT: nat := 10

  /** The examples satisfy their static asserts: 20 x 15 cells. */
  lemma ExampleDimensions()
    ensures Divisible(EXAMPLE_WIDTH, EXAMPLE_HEIGHT, EXAMPLE_SCALE_DOWN_FACTOR)
    ensures EXAMPLE_WIDTH / EXAMPLE_SCALE_DOWN_FACTOR == 20 && EXAMPLE_HEIGHT / EXAMPLE_SCALE_DOWN_FACTOR == 15
  {
  }

  /** The colour of grid point (ix, iy, iz) in examples/3d.c's render: opaque,
      with the indices scaled to 0..229 in red, green and blue. */
  function GridColor(ix: nat, iy: nat, iz: nat): (c: u32)
    requires ix < GRID_COUNT && iy < GRID_COUNT && iz < GRID_COUNT
    ensures Olive.Unpack(c) == [ix * 255 / GRID_COUNT, iy * 255 / GRID_COUNT, iz * 255 / GRID_COUNT, 0xFF]
  {
    var r, g, b := ix * 255 / GRID_COUNT, iy * 255 / GRID_COUNT, iz * 255 / GRID_COUNT;
    Olive.UnpackPack([r, g, b, 0xFF]);
    0xFF00_0000 + r + g * 0x100 + b * 0x1_0000
  }
}
