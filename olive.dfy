/** The software rasteriser of olive.c: colours are 32-bit words holding
    R, G, B, A from the least-significant byte up; a canvas is a flat
    buffer of `width*height` words in row-major order. */
module Olive {
  import opened CTypes

  const COMP_RED: nat := 0
  const COMP_GREEN: nat := 1
  const COMP_BLUE: nat := 2
  const COMP_ALPHA: nat := 3
  const COUNT_COMPS: nat := 4

  // ---------------------------------------------------------------------
  // Colours

  /** The four components of `c`, red (the low byte) first. */
  function Unpack(c: u32): (comps: seq<u8>)
    ensures |comps| == COUNT_COMPS
  {
    [c % 0x100, c / 0x100 % 0x100, c / 0x1_0000 % 0x100, c / 0x100_0000]
  }

  /** The word whose bytes, low to high, are `comps`. */
  function Pack(comps: seq<u8>): u32
    requires |comps| == COUNT_COMPS
  {
    comps[0] as int + comps[1] as int * 0x100 + comps[2] as int * 0x1_0000 + comps[3] as int * 0x100_0000
  }

  /** Packing the unpacked components gives the colour back. */
  lemma PackUnpack(c: u32)
    ensures Pack(Unpack(c)) == c
  {
    var q1 := c / 0x100;
    var q2 := q1 / 0x100;
    var q3 := q2 / 0x100;
    assert c == q1 * 0x100 + c % 0x100;
    assert q1 == q2 * 0x100 + q1 % 0x100;
    assert q2 == q3 * 0x100 + q2 % 0x100;
    DivDiv(c, 0x100, 0x100);
    DivDiv(c, 0x1_0000, 0x100);
    assert c / 0x1_0000 == q2;
    assert c / 0x100_0000 == q3;
    assert q3 < 0x100;
  }

  /** Unpacking a packed colour gives its components back. */
  lemma UnpackPack(comps: seq<u8>)
    requires |comps| == COUNT_COMPS
    ensures Unpack(Pack(comps)) == comps
  {
    var c := Pack(comps);
    var hi3: int := comps[3];
    var hi2: int := comps[2] as int + comps[3] as int * 0x100;
    var hi1: int := comps[1] as int + hi2 * 0x100;
    assert c == comps[0] + hi1 * 0x100;
    DivModUnique(c, 0x100, hi1, comps[0]);
    DivModUnique(hi1, 0x100, hi2, comps[1]);
    DivModUnique(hi2, 0x100, hi3, comps[2]);
    DivDiv(c, 0x100, 0x100);
    DivDiv(c, 0x1_0000, 0x100);
  }

  /** Reference accumulation used by the packing loop: the first `n`
      components placed at their byte positions. */
  function PackedPrefix(comps: seq<u8>, n: nat): int
    requires n <= |comps|
  {
    if n == 0 then 0 else PackedPrefix(comps, n - 1) + comps[n - 1] * Pow256(n - 1)
  }

  function Pow256(n: nat): (p: nat)
    ensures p >= 1
  {
    if n == 0 then 1 else 0x100 * Pow256(n - 1)
  }

  lemma Pow256Values()
    ensures Pow256(0) == 1 && Pow256(1) == 0x100 && Pow256(2) == 0x1_0000
    ensures Pow256(3) == 0x100_0000 && Pow256(4) == 0x1_0000_0000
  {
    assert Pow256(4) == 0x100 * Pow256(3);
    assert Pow256(3) == 0x100 * Pow256(2);
    assert Pow256(2) == 0x100 * Pow256(1);
  }

  /** unpack_rgba32: takes the low byte and shifts right by 8, four times. */
  method UnpackRgba32(c: u32) returns (comp: seq<u8>)
    ensures comp == Unpack(c)
  {
    comp := [];
    var rest: int := c;
    var i := 0;
    while i < COUNT_COMPS
      invariant 0 <= i <= COUNT_COMPS
      invariant |comp| == i
      invariant rest == c / Pow256(i)
      invariant comp == Unpack(c)[..i]
    {
      Pow256Values();
      assert rest % 0x100 == Unpack(c)[i] by {
        if i == 3 {
          assert rest < 0x100;
        }
      }
      comp := comp + [rest % 0x100];
      DivDiv(c, Pow256(i), 0x100);
      rest := rest / 0x100;
      i := i + 1;
    }
  }

  /** pack_rgba32: ORs component i in at bit 8*i. The bytes never overlap,
      so the OR is the sum written here. */
  method PackRgba32(comp: seq<u8>) returns (result: u32)
    requires |comp| == COUNT_COMPS
    ensures result == Pack(comp)
  {
    var acc := 0;
    var i := 0;
    while i < COUNT_COMPS
      invariant 0 <= i <= COUNT_COMPS
      invariant acc == PackedPrefix(comp, i)
      invariant 0 <= acc < Pow256(i)
    {
      MulLe(comp[i], 0xFF, Pow256(i));
      assert Pow256(i + 1) == 0x100 * Pow256(i);
      acc := acc + comp[i] * Pow256(i);
      i := i + 1;
    }
    Pow256Values();
    assert PackedPrefix(comp, 4) == Pack(comp) by {
      assert PackedPrefix(comp, 1) == comp[0];
      assert PackedPrefix(comp, 2) == comp[0] as int + comp[1] as int * 0x100;
      assert PackedPrefix(comp, 3) == comp[0] as int + comp[1] as int * 0x100 + comp[2] as int * 0x1_0000;
    }
    result := acc;
  }

  /** olivec_mix_comps: `c1 + (c2 - c1)*a/255` in C's int arithmetic
      (truncating division), stored into a uint8_t (reduction modulo 256). */
  function MixComps(c1: nat, c2: nat, a: nat): (r: u8)
    requires c1 < 0x1_0000 && c2 < 0x1_0000 && a < 0x1_0000
    ensures c1 < 0x100 && c2 < 0x100 && a < 0x100 ==> r == c1 + CDiv((c2 as int - c1 as int) * a, 255)
  {
    if c1 < 0x100 && c2 < 0x100 && a < 0x100 then
      ScaleBetween(c2 as int - c1 as int, a);
      (c1 + CDiv((c2 as int - c1 as int) * a, 255)) % 0x100
    else
      (c1 + CDiv((c2 as int - c1 as int) * a, 255)) % 0x100
  }

  /** For byte inputs the mix lies between the two components, is c1 for
      a = 0 and c2 for a = 255. */
  lemma MixCompsBetween(c1: u8, c2: u8, a: u8)
    ensures Min(c1, c2) <= MixComps(c1, c2, a) <= Max(c1, c2)
    ensures a == 0 ==> MixComps(c1, c2, a) == c1
    ensures a == 255 ==> MixComps(c1, c2, a) == c2
  {
    var d: int := c2 as int - c1 as int;
    ScaleBetween(d, a);
    var m := c1 + CDiv(d * a, 255);
    assert Min(c1, c2) <= m <= Max(c1, c2);
    assert m % 0x100 == m;
  }

  /** d*a/255 in C arithmetic lies between 0 and d, and is 0 for a = 0 and
      d for a = 255. */
  lemma ScaleBetween(d: int, a: int)
    requires -255 <= d <= 255 && 0 <= a <= 255
    ensures Min(0, d) <= CDiv(d * a, 255) <= Max(0, d)
    ensures a == 0 ==> CDiv(d * a, 255) == 0
    ensures a == 255 ==> CDiv(d * a, 255) == d
  {
    if d >= 0 {
      MulLe(a, 255, d);
      MulLe(0, a, d);
      assert 0 <= d * a <= d * 255;
    } else {
      var e := -d;
      MulLe(a, 255, e);
      MulLe(0, a, e);
      assert d * a == -(e * a);
      assert 0 <= e * a <= e * 255;
      assert CDiv(d * a, 255) == -((e * a) / 255);
    }
  }

  /** olivec_mix_colors: R, G and B of c1 mixed toward c2's by c2's alpha;
      the alpha of c1 is kept. */
  function MixColors(c1: u32, c2: u32): (r: u32)
    ensures Unpack(r)[COMP_ALPHA] == Unpack(c1)[COMP_ALPHA]
    ensures forall i :: 0 <= i < COMP_ALPHA ==>
              Unpack(r)[i] == MixComps(Unpack(c1)[i], Unpack(c2)[i], Unpack(c2)[COMP_ALPHA])
  {
    var p := Unpack(c1);
    var q := Unpack(c2);
    var mixed := [MixComps(p[0], q[0], q[3]), MixComps(p[1], q[1], q[3]), MixComps(p[2], q[2], q[3]), p[3]];
    UnpackPack(mixed);
    Pack(mixed)
  }

  /** A fully transparent colour leaves the pixel as it was. */
  lemma MixTransparent(c1: u32, c2: u32)
    requires Unpack(c2)[COMP_ALPHA] == 0
    ensures MixColors(c1, c2) == c1
  {
    var p := Unpack(c1);
    var q := Unpack(c2);
    forall i | 0 <= i < COMP_ALPHA ensures MixComps(p[i], q[i], q[3]) == p[i] {
      MixCompsBetween(p[i], q[i], q[3]);
    }
    var r := MixColors(c1, c2);
    assert Unpack(r) == p;
    PackUnpack(r);
    PackUnpack(c1);
  }

  /** An opaque colour replaces R, G and B and keeps the pixel's alpha. */
  lemma MixOpaque(c1: u32, c2: u32)
    requires Unpack(c2)[COMP_ALPHA] == 255
    ensures MixColors(c1, c2) == Pack(Unpack(c2)[..COMP_ALPHA] + [Unpack(c1)[COMP_ALPHA]])
  {
    var p := Unpack(c1);
    var q := Unpack(c2);
    forall i | 0 <= i < COMP_ALPHA ensures MixComps(p[i], q[i], q[3]) == q[i] {
      MixCompsBetween(p[i], q[i], q[3]);
    }
    var r := MixColors(c1, c2);
    assert Unpack(r) == q[..COMP_ALPHA] + [p[COMP_ALPHA]];
    PackUnpack(r);
  }

  // ---------------------------------------------------------------------
  // Rectangles

  function Sign(v: int): int { if v > 0 then 1 else if v < 0 then -1 else 0 }

  function Abs(v: int): nat { if v < 0 then -v else v }

  /** The coordinate of the opposite corner, x + sign(w)*(|w| - 1), by
      the sign of w. */
  function FarCorner(x: int, w: int): int {
    if w > 0 then x + w - 1 else if w < 0 then x + w + 1 else x
  }

  /** The columns (or rows) a signed extent covers: a positive w extends
      right of x, a negative one left of it, and w = 0 still covers x. */
  predicate InSpan(x: int, w: int, p: int) {
    Min(x, FarCorner(x, w)) <= p <= Max(x, FarCorner(x, w))
  }

  lemma SpanShape(x: int, w: int, p: int)
    ensures w > 0 ==> (InSpan(x, w, p) <==> x <= p < x + w)
    ensures w < 0 ==> (InSpan(x, w, p) <==> x + w < p <= x)
    ensures w == 0 ==> (InSpan(x, w, p) <==> p == x)
  {
  }

  datatype Rect = Rect(x1: int, x2: int, y1: int, y2: int)

  predicate InRect(r: Rect, x: int, y: int) {
    r.x1 <= x <= r.x2 && r.y1 <= y <= r.y2
  }

  /** Reference definition of olivec_normalize_rect: the rectangle sorted
      into two corners, culled when it lies wholly outside the canvas and
      clamped to it otherwise. */
  function Normalized(x: int, y: int, w: int, h: int, width: nat, height: nat): Option<Rect> {
    var xa := Min(x, FarCorner(x, w));
    var xb := Max(x, FarCorner(x, w));
    var ya := Min(y, FarCorner(y, h));
    var yb := Max(y, FarCorner(y, h));
    if xa >= width || xb < 0 || ya >= height || yb < 0 then None
    else Some(Rect(Max(xa, 0), Min(xb, width - 1), Max(ya, 0), Min(yb, height - 1)))
  }

  /** The normalized rectangle is exactly the part of the canvas the
      rectangle covers, and a culled rectangle covers no canvas pixel. On a
      canvas of positive size a rectangle that is not culled covers at
      least its first corner. Its bounds are safe to iterate without
      further checks. */
  lemma NormalizedIsClip(x: int, y: int, w: int, h: int, width: nat, height: nat)
    ensures match Normalized(x, y, w, h, width, height)
      case None =>
        forall px, py :: 0 <= px < width && 0 <= py < height ==> !(InSpan(x, w, px) && InSpan(y, h, py))
      case Some(r) =>
        && 0 <= r.x1 && r.x2 < width && 0 <= r.y1 && r.y2 < height
        && (width > 0 && height > 0 ==> r.x1 <= r.x2 && r.y1 <= r.y2)
        && forall px, py :: InRect(r, px, py) <==>
             (0 <= px < width && 0 <= py < height && InSpan(x, w, px) && InSpan(y, h, py))
  {
  }

  /** olivec_normalize_rect, with the out-pointers as out-parameters. */
  method NormalizeRect(x: int, y: int, w: int, h: int, width: nat, height: nat)
    returns (ok: bool, x1: int, x2: int, y1: int, y2: int)
    ensures ok == Normalized(x, y, w, h, width, height).Some?
    ensures ok ==> Rect(x1, x2, y1, y2) == Normalized(x, y, w, h, width, height).value
    ensures ok ==> 0 <= x1 && x2 < width && 0 <= y1 && y2 < height
  {
    x1 := x;
    y1 := y;
    assert Sign(w) * (Abs(w) - 1) == FarCorner(x, w) - x;
    assert Sign(h) * (Abs(h) - 1) == FarCorner(y, h) - y;
    x2 := x1 + Sign(w) * (Abs(w) - 1);
    if x1 > x2 { x1, x2 := x2, x1; }
    y2 := y1 + Sign(h) * (Abs(h) - 1);
    if y1 > y2 { y1, y2 := y2, y1; }

    if x1 >= width { return false, x1, x2, y1, y2; }
    if x2 < 0 { return false, x1, x2, y1, y2; }
    if y1 >= height { return false, x1, x2, y1, y2; }
    if y2 < 0 { return false, x1, x2, y1, y2; }

    if x1 < 0 { x1 := 0; }
    if x2 >= width { x2 := width - 1; }
    if y1 < 0 { y1 := 0; }
    if y2 >= height { y2 := height - 1; }
    ok := true;
  }

  // ---------------------------------------------------------------------
  // The pixel buffer

  /** Index of pixel (x, y) in a row-major buffer of the given width. */
  function Idx(width: nat, x: int, y: int): int { y * width + x }

  /** Column and row of word i of a row-major buffer. */
  function Col(width: nat, i: int): int requires width > 0 { i % width }
  function Row(width: nat, i: int): int requires width > 0 { i / width }

  lemma IdxFacts(width: nat, height: nat, x: int, y: int)
    requires 0 <= x < width && 0 <= y < height
    ensures 0 <= Idx(width, x, y) < width * height
    ensures Col(width, Idx(width, x, y)) == x && Row(width, Idx(width, x, y)) == y
  {
    MulLe(y, height - 1, width);
    assert (height - 1) * width == height * width - width;
    DivModUnique(Idx(width, x, y), width, y, x);
  }

  /** `c` mixed with `color` when `b` holds, otherwise unchanged. */
  function MixIf(c: u32, color: u32, b: bool): u32 {
    if b then MixColors(c, color) else c
  }

  /** Pixel (px, py) comes before (x, y) in row-major scan order. */
  predicate ScannedBefore(px: int, py: int, x: int, y: int) {
    py < y || (py == y && px < x)
  }

  /** olivec_fill: every word of the width*height canvas becomes `color`. */
  method Fill(pixels: array<u32>, width: nat, height: nat, color: u32)
    requires width * height <= pixels.Length
    modifies pixels
    ensures forall i :: 0 <= i < width * height ==> pixels[i] == color
    ensures forall i :: width * height <= i < pixels.Length ==> pixels[i] == old(pixels[i])
  {
    var i := 0;
    while i < width * height
      invariant 0 <= i <= width * height
      invariant forall k :: 0 <= k < i ==> pixels[k] == color
      invariant forall k :: i <= k < pixels.Length ==> pixels[k] == old(pixels[k])
    {
      pixels[i] := color;
      i := i + 1;
    }
  }

  /** olivec_fill_rect: `color` is mixed once into every canvas pixel the
      rectangle (x, y, w, h) covers; nothing else changes. */
  method FillRect(pixels: array<u32>, width: nat, height: nat, x: int, y: int, w: int, h: int, color: u32)
    requires width * height <= pixels.Length
    modifies pixels
    ensures forall i :: 0 <= i < width * height ==>
      pixels[i] == MixIf(old(pixels[i]), color, InSpan(x, w, Col(width, i)) && InSpan(y, h, Row(width, i)))
    ensures forall i :: width * height <= i < pixels.Length ==> pixels[i] == old(pixels[i])
  {
    NormalizedIsClip(x, y, w, h, width, height);
    CanvasCoords(width, height);
    var ok, x1, x2, y1, y2 := NormalizeRect(x, y, w, h, width, height);
    if !ok {
      return;
    }
    FillBox(pixels, width, height, Rect(x1, x2, y1, y2), color);
  }

  /** The two nested loops of olivec_fill_rect over a normalized box. */
  method FillBox(pixels: array<u32>, width: nat, height: nat, r: Rect, color: u32)
    requires width * height <= pixels.Length
    requires 0 <= r.x1 && r.x2 < width && 0 <= r.y1 && r.y2 < height
    modifies pixels
    ensures forall i :: 0 <= i < width * height ==>
      pixels[i] == MixIf(old(pixels[i]), color, InRect(r, Col(width, i), Row(width, i)))
    ensures forall i :: width * height <= i < pixels.Length ==> pixels[i] == old(pixels[i])
  {
    ghost var orig := pixels[..];
    var yy := r.y1;
    while yy <= r.y2
      invariant r.y1 <= yy <= Max(r.y1, r.y2 + 1)
      invariant forall i :: width * height <= i < pixels.Length ==> pixels[i] == orig[i]
      invariant forall i :: 0 <= i < width * height ==>
        pixels[i] == MixIf(orig[i], color, InRect(r, Col(width, i), Row(width, i)) && Row(width, i) < yy)
    {
      FillBoxRow(pixels, width, height, r, color, yy, orig);
      yy := yy + 1;
    }
  }

  /** The inner loop of olivec_fill_rect: row yy of the box. */
  method FillBoxRow(pixels: array<u32>, width: nat, height: nat, box: Rect, color: u32, yy: int, ghost orig: seq<u32>)
    requires width * height <= pixels.Length == |orig|
    requires 0 <= box.x1 && box.x2 < width && 0 <= box.y1 <= yy <= box.y2 < height
    requires forall i :: width * height <= i < pixels.Length ==> pixels[i] == orig[i]
    requires forall i :: 0 <= i < width * height ==>
      pixels[i] == MixIf(orig[i], color, InRect(box, Col(width, i), Row(width, i)) && Row(width, i) < yy)
    modifies pixels
    ensures forall i :: width * height <= i < pixels.Length ==> pixels[i] == orig[i]
    ensures forall i :: 0 <= i < width * height ==>
      pixels[i] == MixIf(orig[i], color, InRect(box, Col(width, i), Row(width, i)) && Row(width, i) <= yy)
  {
    var xx := box.x1;
    while xx <= box.x2
      invariant box.x1 <= xx <= Max(box.x1, box.x2 + 1)
      invariant BoxScan(pixels[..], orig, width, height, box, color, xx, yy)
    {
      ghost var cur := pixels[..];
      BoxScanStep(cur, orig, width, height, box, color, xx, yy);
      pixels[Idx(width, xx, yy)] := MixColors(pixels[Idx(width, xx, yy)], color);
      assert pixels[..] == cur[Idx(width, xx, yy) := MixColors(cur[Idx(width, xx, yy)], color)];
      xx := xx + 1;
    }
  }

  /** The state of the box scan at pixel (xx, yy): the words past the
      canvas are untouched, and exactly the box pixels scanned so far are
      mixed. */
  ghost predicate BoxScan(cur: seq<u32>, orig: seq<u32>, width: nat, height: nat, box: Rect,
                          color: u32, xx: int, yy: int)
  {
    |cur| == |orig| && width * height <= |cur| &&
    (forall i :: width * height <= i < |cur| ==> cur[i] == orig[i]) &&
    forall i :: 0 <= i < width * height ==>
      cur[i] == MixIf(orig[i], color,
                      InRect(box, Col(width, i), Row(width, i)) && ScannedBefore(Col(width, i), Row(width, i), xx, yy))
  }

  /** One pixel of the box scan: (xx, yy) is mixed and no other word
      changes. */
  lemma BoxScanStep(cur: seq<u32>, orig: seq<u32>, width: nat, height: nat, box: Rect,
                    color: u32, xx: int, yy: int)
    requires BoxScan(cur, orig, width, height, box, color, xx, yy)
    requires 0 <= box.x1 <= xx <= box.x2 < width && 0 <= box.y1 <= yy <= box.y2 < height
    ensures 0 <= Idx(width, xx, yy) < width * height
    ensures BoxScan(cur[Idx(width, xx, yy) := MixColors(cur[Idx(width, xx, yy)], color)],
                    orig, width, height, box, color, xx + 1, yy)
  {
    IdxFacts(width, height, xx, yy);
    var j := Idx(width, xx, yy);
    var next := cur[j := MixColors(cur[j], color)];
    forall i | 0 <= i < width * height
      ensures next[i] == MixIf(orig[i], color,
                               InRect(box, Col(width, i), Row(width, i)) && ScannedBefore(Col(width, i), Row(width, i), xx + 1, yy))
    {
      PixelCoords(width, height, i);
      if i != j {
        assert Col(width, i) != xx || Row(width, i) != yy;
      }
    }
  }

  /** Every word of the canvas is the pixel at its column and row. */
  lemma CanvasCoords(width: nat, height: nat)
    ensures forall i :: 0 <= i < width * height ==>
      width > 0 && 0 <= Col(width, i) < width && 0 <= Row(width, i) < height && Idx(width, Col(width, i), Row(width, i)) == i
  {
    forall i | 0 <= i < width * height
      ensures width > 0 && 0 <= Col(width, i) < width && 0 <= Row(width, i) < height && Idx(width, Col(width, i), Row(width, i)) == i
    {
      assert width > 0;
      if Row(width, i) >= height {
        MulLe(height, Row(width, i), width);
      }
    }
  }

  /** The pixels of the disc of radius |r| around (cx, cy). */
  predicate InDisc(cx: int, cy: int, r: int, x: int, y: int) {
    (x - cx) * (x - cx) + (y - cy) * (y - cy) <= r * r
  }

  /** A coordinate whose square is at most r*r is at most |r| from 0. */
  lemma SquareBound(d: int, e: int, r: int)
    requires d * d + e * e <= r * r
    ensures Abs(d) <= Abs(r)
  {
    var a, b := Abs(d), Abs(r);
    assert a * a == d * d;
    assert b * b == r * r;
    assert e * e >= 0;
    SquareMonotone(a, b);
  }

  lemma SquareMonotone(a: nat, b: nat)
    ensures a > b ==> a * a > b * b
  {
    if a > b {
      MulLe(b + 1, a, a);
      MulLe(b, b + 1, b);
      assert a * a >= (b + 1) * a >= (b + 1) * (b + 1) > b * b;
    }
  }

  /** The disc fits in the box olivec_fill_circle normalizes: the box
      (cx - r1, cy - r1, 2*r1, 2*r1) with r1 = r + sign(r). */
  lemma DiscInBox(cx: int, cy: int, r: int, x: int, y: int)
    requires InDisc(cx, cy, r, x, y)
    ensures InSpan(cx - (r + Sign(r)), 2 * (r + Sign(r)), x)
    ensures InSpan(cy - (r + Sign(r)), 2 * (r + Sign(r)), y)
  {
    SquareBound(x - cx, y - cy, r);
    SquareBound(y - cy, x - cx, r);
  }

  /** Every canvas pixel of the disc lies in the normalized bounding box of
      olivec_fill_circle, which then exists. */
  lemma DiscClip(cx: int, cy: int, r: int, width: nat, height: nat)
    ensures var r1 := r + Sign(r);
      var n := Normalized(cx - r1, cy - r1, 2 * r1, 2 * r1, width, height);
      forall px, py :: 0 <= px < width && 0 <= py < height && InDisc(cx, cy, r, px, py) ==>
        n.Some? && InRect(n.value, px, py)
  {
    var r1 := r + Sign(r);
    NormalizedIsClip(cx - r1, cy - r1, 2 * r1, 2 * r1, width, height);
    forall px, py | 0 <= px < width && 0 <= py < height && InDisc(cx, cy, r, px, py)
      ensures InSpan(cx - r1, 2 * r1, px) && InSpan(cy - r1, 2 * r1, py)
    {
      DiscInBox(cx, cy, r, px, py);
    }
  }

  /** olivec_fill_circle: `color` is mixed once into exactly the canvas
      pixels with (x-cx)^2 + (y-cy)^2 <= r^2; nothing else changes. */
  method FillCircle(pixels: array<u32>, width: nat, height: nat, cx: int, cy: int, r: int, color: u32)
    requires width * height <= pixels.Length
    modifies pixels
    ensures forall i :: 0 <= i < width * height ==>
      pixels[i] == MixIf(old(pixels[i]), color, InDisc(cx, cy, r, Col(width, i), Row(width, i)))
    ensures forall i :: width * height <= i < pixels.Length ==> pixels[i] == old(pixels[i])
  {
    var r1 := r + Sign(r);
    DiscClip(cx, cy, r, width, height);
    CanvasCoords(width, height);
    var ok, x1, x2, y1, y2 := NormalizeRect(cx - r1, cy - r1, 2 * r1, 2 * r1, width, height);
    if !ok {
      return;
    }
    FillDiscInBox(pixels, width, height, Rect(x1, x2, y1, y2), cx, cy, r, color);
  }

  /** The two nested loops of olivec_fill_circle over its normalized box:
      a pixel of the box is mixed when it lies in the disc. */
  method FillDiscInBox(pixels: array<u32>, width: nat, height: nat, box: Rect, cx: int, cy: int, r: int, color: u32)
    requires width * height <= pixels.Length
    requires 0 <= box.x1 && box.x2 < width && 0 <= box.y1 && box.y2 < height
    modifies pixels
    ensures forall i :: 0 <= i < width * height ==>
      pixels[i] == MixIf(old(pixels[i]), color, InRect(box, Col(width, i), Row(width, i)) && InDisc(cx, cy, r, Col(width, i), Row(width, i)))
    ensures forall i :: width * height <= i < pixels.Length ==> pixels[i] == old(pixels[i])
  {
    ghost var orig := pixels[..];
    var yy := box.y1;
    while yy <= box.y2
      invariant box.y1 <= yy <= Max(box.y1, box.y2 + 1)
      invariant forall i :: width * height <= i < pixels.Length ==> pixels[i] == orig[i]
      invariant forall i :: 0 <= i < width * height ==>
        pixels[i] == MixIf(orig[i], color,
                           InRect(box, Col(width, i), Row(width, i)) && Row(width, i) < yy
                           && InDisc(cx, cy, r, Col(width, i), Row(width, i)))
    {
      FillDiscRow(pixels, width, height, box, cx, cy, r, color, yy, orig);
      yy := yy + 1;
    }
  }

  /** The inner loop of olivec_fill_circle: row yy of the box. */
  method FillDiscRow(pixels: array<u32>, width: nat, height: nat, box: Rect, cx: int, cy: int, r: int, color: u32,
                     yy: int, ghost orig: seq<u32>)
    requires width * height <= pixels.Length == |orig|
    requires 0 <= box.x1 && box.x2 < width && 0 <= box.y1 <= yy <= box.y2 < height
    requires forall i :: width * height <= i < pixels.Length ==> pixels[i] == orig[i]
    requires forall i :: 0 <= i < width * height ==>
      pixels[i] == MixIf(orig[i], color,
                         InRect(box, Col(width, i), Row(width, i)) && Row(width, i) < yy
                         && InDisc(cx, cy, r, Col(width, i), Row(width, i)))
    modifies pixels
    ensures forall i :: width * height <= i < pixels.Length ==> pixels[i] == orig[i]
    ensures forall i :: 0 <= i < width * height ==>
      pixels[i] == MixIf(orig[i], color,
                         InRect(box, Col(width, i), Row(width, i)) && Row(width, i) <= yy
                         && InDisc(cx, cy, r, Col(width, i), Row(width, i)))
  {
    var xx := box.x1;
    DiscScanStart(pixels[..], orig, width, height, box, cx, cy, r, color, yy);
    while xx <= box.x2
      invariant box.x1 <= xx <= Max(box.x1, box.x2 + 1)
      invariant DiscScan(pixels[..], orig, width, height, box, cx, cy, r, color, xx, yy)
    {
      var dx := xx - cx;
      var dy := yy - cy;
      ghost var cur := pixels[..];
      DiscScanStep(cur, orig, width, height, box, cx, cy, r, color, xx, yy, dx * dx + dy * dy <= r * r);
      if dx * dx + dy * dy <= r * r {
        pixels[Idx(width, xx, yy)] := MixColors(pixels[Idx(width, xx, yy)], color);
        assert pixels[..] == cur[Idx(width, xx, yy) := MixColors(cur[Idx(width, xx, yy)], color)];
      }
      xx := xx + 1;
    }
    DiscScanEnd(pixels[..], orig, width, height, box, cx, cy, r, color, xx, yy);
  }

  /** The state of the disc scan at pixel (xx, yy): the words past the
      canvas are untouched, and exactly the disc pixels of the box scanned
      so far are mixed. */
  ghost predicate DiscScan(cur: seq<u32>, orig: seq<u32>, width: nat, height: nat, box: Rect,
                           cx: int, cy: int, r: int, color: u32, xx: int, yy: int)
  {
    |cur| == |orig| && width * height <= |cur| &&
    (forall i :: width * height <= i < |cur| ==> cur[i] == orig[i]) &&
    forall i :: 0 <= i < width * height ==>
      cur[i] == MixIf(orig[i], color,
                      InRect(box, Col(width, i), Row(width, i)) && ScannedBefore(Col(width, i), Row(width, i), xx, yy)
                      && InDisc(cx, cy, r, Col(width, i), Row(width, i)))
  }

  lemma DiscScanStart(cur: seq<u32>, orig: seq<u32>, width: nat, height: nat, box: Rect,
                      cx: int, cy: int, r: int, color: u32, yy: int)
    requires width * height <= |cur| == |orig|
    requires 0 <= box.x1 && box.x2 < width
    requires forall i :: width * height <= i < |cur| ==> cur[i] == orig[i]
    requires forall i :: 0 <= i < width * height ==>
      cur[i] == MixIf(orig[i], color,
                      InRect(box, Col(width, i), Row(width, i)) && Row(width, i) < yy
                      && InDisc(cx, cy, r, Col(width, i), Row(width, i)))
    ensures DiscScan(cur, orig, width, height, box, cx, cy, r, color, box.x1, yy)
  {
  }

  lemma DiscScanEnd(cur: seq<u32>, orig: seq<u32>, width: nat, height: nat, box: Rect,
                    cx: int, cy: int, r: int, color: u32, xx: int, yy: int)
    requires DiscScan(cur, orig, width, height, box, cx, cy, r, color, xx, yy)
    requires xx == Max(box.x1, box.x2 + 1)
    ensures forall i :: width * height <= i < |cur| ==> cur[i] == orig[i]
    ensures forall i :: 0 <= i < width * height ==>
      cur[i] == MixIf(orig[i], color,
                      InRect(box, Col(width, i), Row(width, i)) && Row(width, i) <= yy
                      && InDisc(cx, cy, r, Col(width, i), Row(width, i)))
  {
  }

  /** One pixel of the scan: (xx, yy) is mixed exactly when it lies in the
      disc, and no other word changes. */
  lemma DiscScanStep(cur: seq<u32>, orig: seq<u32>, width: nat, height: nat, box: Rect,
                     cx: int, cy: int, r: int, color: u32, xx: int, yy: int, hit: bool)
    requires DiscScan(cur, orig, width, height, box, cx, cy, r, color, xx, yy)
    requires 0 <= box.x1 <= xx <= box.x2 < width && 0 <= box.y1 <= yy <= box.y2 < height
    requires hit == InDisc(cx, cy, r, xx, yy)
    ensures 0 <= Idx(width, xx, yy) < width * height
    ensures DiscScan(if hit then cur[Idx(width, xx, yy) := MixColors(cur[Idx(width, xx, yy)], color)] else cur,
                     orig, width, height, box, cx, cy, r, color, xx + 1, yy)
  {
    IdxFacts(width, height, xx, yy);
    var j := Idx(width, xx, yy);
    var next := if hit then cur[j := MixColors(cur[j], color)] else cur;
    forall i | 0 <= i < width * height
      ensures next[i] == MixIf(orig[i], color,
                               InRect(box, Col(width, i), Row(width, i)) && ScannedBefore(Col(width, i), Row(width, i), xx + 1, yy)
                               && InDisc(cx, cy, r, Col(width, i), Row(width, i)))
    {
      PixelCoords(width, height, i);
      if i != j {
        assert Col(width, i) != xx || Row(width, i) != yy;
      }
    }
  }

  /** Word i of the canvas is the pixel at its column and row. */
  lemma PixelCoords(width: nat, height: nat, i: int)
    requires 0 <= i < width * height
    ensures width > 0 && 0 <= Col(width, i) < width && 0 <= Row(width, i) < height && Idx(width, Col(width, i), Row(width, i)) == i
  {
    assert width > 0;
    if Row(width, i) >= height {
      MulLe(height, Row(width, i), width);
    }
  }

  // ---------------------------------------------------------------------
  // Lines and triangles: spans with per-pixel bounds checks

  /** Mixes `color` into the in-canvas pixels (x, ya..yb) of column x. */
  method MixColumn(pixels: array<u32>, width: nat, height: nat, x: int, ya: int, yb: int, color: u32)
    requires width * height <= pixels.Length
    requires 0 <= x < width
    modifies pixels
    ensures forall i :: 0 <= i < width * height ==>
      pixels[i] == MixIf(old(pixels[i]), color, Col(width, i) == x && ya <= Row(width, i) <= yb)
    ensures forall i :: width * height <= i < pixels.Length ==> pixels[i] == old(pixels[i])
    ensures pixels[..] == MixedColumn(old(pixels[..]), width, height, x, ya, yb, color)
  {
    CanvasCoords(width, height);
    var yy := ya;
    while yy <= yb
      invariant ya <= yy <= Max(ya, yb + 1)
      invariant forall i :: width * height <= i < pixels.Length ==> pixels[i] == old(pixels[i])
      invariant forall i :: 0 <= i < width * height ==>
        pixels[i] == MixIf(old(pixels[i]), color, Col(width, i) == x && ya <= Row(width, i) < yy)
    {
      if 0 <= yy < height {
        IdxFacts(width, height, x, yy);
        pixels[Idx(width, x, yy)] := MixColors(pixels[Idx(width, x, yy)], color);
      }
      yy := yy + 1;
    }
  }

  /** The words after MixColumn: the pixels of column x between rows ya
      and yb mixed, all others as they were. */
  function MixedColumn(s: seq<u32>, width: nat, height: nat, x: int, ya: int, yb: int, color: u32): (r: seq<u32>)
    requires width * height <= |s|
    ensures |r| == |s|
  {
    seq(|s|, i requires 0 <= i < |s| =>
      if i < width * height then MixIf(s[i], color, Col(width, i) == x && ya <= Row(width, i) <= yb) else s[i])
  }

  /** Mixes `color` into the in-canvas pixels (xa..xb, y) of row y. */
  method MixRow(pixels: array<u32>, width: nat, height: nat, y: int, xa: int, xb: int, color: u32)
    requires width * height <= pixels.Length
    requires 0 <= y < height
    modifies pixels
    ensures forall i :: 0 <= i < width * height ==>
      pixels[i] == MixIf(old(pixels[i]), color, Row(width, i) == y && xa <= Col(width, i) <= xb)
    ensures forall i :: width * height <= i < pixels.Length ==> pixels[i] == old(pixels[i])
  {
    CanvasCoords(width, height);
    var xx := xa;
    while xx <= xb
      invariant xa <= xx <= Max(xa, xb + 1)
      invariant forall i :: width * height <= i < pixels.Length ==> pixels[i] == old(pixels[i])
      invariant forall i :: 0 <= i < width * height ==>
        pixels[i] == MixIf(old(pixels[i]), color, Row(width, i) == y && xa <= Col(width, i) < xx)
    {
      if 0 <= xx < width {
        IdxFacts(width, height, xx, y);
        pixels[Idx(width, xx, y)] := MixColors(pixels[Idx(width, xx, y)], color);
      }
      xx := xx + 1;
    }
  }

  /** The pixels olivec_draw_line covers. For a non-vertical line, each
      column x between the endpoints gets the rows between dy*x/dx + c and
      dy*(x+1)/dx + c, with c = y1 - dy*x1/dx (C division); a vertical
      line gets column x1 between y1 and y2. */
  predicate OnLine(x1: int, y1: int, x2: int, y2: int, px: int, py: int) {
    if x2 != x1 then
      var s1 := LineRow(x1, y1, x2, y2, px);
      var s2 := LineRow(x1, y1, x2, y2, px + 1);
      Min(x1, x2) <= px <= Max(x1, x2) && Min(s1, s2) <= py <= Max(s1, s2)
    else
      px == x1 && Min(y1, y2) <= py <= Max(y1, y2)
  }

  /** The row a non-vertical line reaches at column px, with C's
      truncating division: dy*px/dx + (y1 - dy*x1/dx). */
  function LineRow(x1: int, y1: int, x2: int, y2: int, px: int): (r: int)
    requires x2 != x1
    ensures px == x1 ==> r == y1
  {
    var dx := x2 - x1;
    var dy := y2 - y1;
    CDiv(dy * px, dx) + (y1 - CDiv(dy * x1, dx))
  }

  /** The first endpoint is always on the line. */
  lemma LineStartsAtFirstEndpoint(x1: int, y1: int, x2: int, y2: int)
    ensures OnLine(x1, y1, x2, y2, x1, y1)
  {
  }

  /** olivec_draw_line: `color` is mixed once into exactly the canvas
      pixels of OnLine; nothing outside the canvas is written. */
  method DrawLine(pixels: array<u32>, width: nat, height: nat, x1: int, y1: int, x2: int, y2: int, color: u32)
    requires width * height <= pixels.Length
    modifies pixels
    ensures forall i :: 0 <= i < width * height ==>
      pixels[i] == MixIf(old(pixels[i]), color, OnLine(x1, y1, x2, y2, Col(width, i), Row(width, i)))
    ensures forall i :: width * height <= i < pixels.Length ==> pixels[i] == old(pixels[i])
  {
    CanvasCoords(width, height);
    var dx := x2 - x1;
    var dy := y2 - y1;
    if dx != 0 {
      DrawSlopedLine(pixels, width, height, x1, y1, x2, y2, color);
    } else {
      var xx := x1;
      if 0 <= xx < width {
        var ya, yb := y1, y2;
        if ya > yb {
          ya, yb := yb, ya;
        }
        MixColumn(pixels, width, height, xx, ya, yb, color);
      }
    }
  }

  /** olivec_draw_line when x1 != x2: column by column from the smaller x to the
      larger, each column filled between the line's rows at x and x + 1. */
  method DrawSlopedLine(pixels: array<u32>, width: nat, height: nat, x1: int, y1: int, x2: int, y2: int, color: u32)
    requires width * height <= pixels.Length && x1 != x2
    modifies pixels
    ensures forall i :: 0 <= i < width * height ==>
      pixels[i] == MixIf(old(pixels[i]), color, OnLine(x1, y1, x2, y2, Col(width, i), Row(width, i)))
    ensures forall i :: width * height <= i < pixels.Length ==> pixels[i] == old(pixels[i])
  {
    ghost var orig := pixels[..];
    var xa, xb := x1, x2;
    if xa > xb {
      xa, xb := xb, xa;
    }
    LineScanStart(orig, width, height, x1, y1, x2, y2, color);
    var xx := xa;
    while xx <= xb
      invariant xa <= xx <= xb + 1
      invariant LineScan(pixels[..], orig, width, height, x1, y1, x2, y2, color, xx)
    {
      if 0 <= xx < width {
        LineColumn(pixels, width, height, x1, y1, x2, y2, color, xx, orig);
      } else {
        ColumnSkip(pixels[..], orig, width, height, x1, y1, x2, y2, color, xx);
      }
      xx := xx + 1;
    }
    LineScanEnd(pixels[..], orig, width, height, x1, y1, x2, y2, color);
  }

  /** One column of olivec_draw_line's sloped case: the rows from the line's
      height at xx to its height at xx + 1, in either order. */
  method LineColumn(pixels: array<u32>, width: nat, height: nat, x1: int, y1: int, x2: int, y2: int, color: u32,
                    xx: int, ghost orig: seq<u32>)
    requires x2 != x1 && 0 <= xx < width && Min(x1, x2) <= xx <= Max(x1, x2)
    requires LineScan(pixels[..], orig, width, height, x1, y1, x2, y2, color, xx)
    modifies pixels
    ensures LineScan(pixels[..], orig, width, height, x1, y1, x2, y2, color, xx + 1)
  {
    ghost var cur := pixels[..];
    var sy1 := LineRow(x1, y1, x2, y2, xx);
    var sy2 := LineRow(x1, y1, x2, y2, xx + 1);
    if sy1 > sy2 {
      sy1, sy2 := sy2, sy1;
    }
    MixColumn(pixels, width, height, xx, sy1, sy2, color);
    ColumnStep(cur, pixels[..], orig, width, height, x1, y1, x2, y2, color, xx, sy1, sy2);
  }

  /** The state of the line scan before column xx: the words past the
      canvas are untouched, and exactly the line pixels left of xx are
      mixed. */
  ghost predicate LineScan(cur: seq<u32>, orig: seq<u32>, width: nat, height: nat,
                           x1: int, y1: int, x2: int, y2: int, color: u32, xx: int)
  {
    |cur| == |orig| && width * height <= |cur| &&
    (forall i :: width * height <= i < |cur| ==> cur[i] == orig[i]) &&
    forall i :: 0 <= i < width * height ==>
      cur[i] == MixIf(orig[i], color, OnLine(x1, y1, x2, y2, Col(width, i), Row(width, i)) && Col(width, i) < xx)
  }

  lemma LineScanStart(orig: seq<u32>, width: nat, height: nat, x1: int, y1: int, x2: int, y2: int, color: u32)
    requires width * height <= |orig| && x2 != x1
    ensures LineScan(orig, orig, width, height, x1, y1, x2, y2, color, Min(x1, x2))
  {
  }

  lemma LineScanEnd(cur: seq<u32>, orig: seq<u32>, width: nat, height: nat, x1: int, y1: int, x2: int, y2: int, color: u32)
    requires x2 != x1 && LineScan(cur, orig, width, height, x1, y1, x2, y2, color, Max(x1, x2) + 1)
    ensures forall i :: 0 <= i < width * height ==>
      cur[i] == MixIf(orig[i], color, OnLine(x1, y1, x2, y2, Col(width, i), Row(width, i)))
    ensures forall i :: width * height <= i < |cur| ==> cur[i] == orig[i]
  {
  }

  /** Column xx of a non-vertical line is the span between its two
      rounded rows. */
  lemma ColumnStep(cur: seq<u32>, next: seq<u32>, orig: seq<u32>, width: nat, height: nat,
                   x1: int, y1: int, x2: int, y2: int, color: u32, xx: int, lo: int, hi: int)
    requires x2 != x1 && 0 <= xx < width
    requires LineScan(cur, orig, width, height, x1, y1, x2, y2, color, xx)
    requires lo == Min(LineRow(x1, y1, x2, y2, xx), LineRow(x1, y1, x2, y2, xx + 1))
    requires hi == Max(LineRow(x1, y1, x2, y2, xx), LineRow(x1, y1, x2, y2, xx + 1))
    requires Min(x1, x2) <= xx <= Max(x1, x2)
    requires next == MixedColumn(cur, width, height, xx, lo, hi, color)
    ensures LineScan(next, orig, width, height, x1, y1, x2, y2, color, xx + 1)
  {
    forall i | 0 <= i < width * height
      ensures next[i] == MixIf(orig[i], color, OnLine(x1, y1, x2, y2, Col(width, i), Row(width, i)) && Col(width, i) < xx + 1)
    {
      var col, row := Col(width, i), Row(width, i);
      var on := OnLine(x1, y1, x2, y2, col, row);
      assert col == xx ==> (on <==> lo <= row <= hi);
      PixelStep(orig[i], cur[i], next[i], color, on, col, row, xx, lo, hi);
    }
  }

  /** A pixel left of column xx was mixed already when on the line; the
      column step mixes it when it is in column xx and between lo and hi. */
  lemma PixelStep(o: u32, c: u32, n: u32, color: u32, on: bool, col: int, row: int, xx: int, lo: int, hi: int)
    requires c == MixIf(o, color, on && col < xx)
    requires n == MixIf(c, color, col == xx && lo <= row <= hi)
    requires col == xx ==> (on <==> lo <= row <= hi)
    ensures n == MixIf(o, color, on && col < xx + 1)
  {
  }

  /** A column outside the canvas holds no canvas pixel. */
  lemma ColumnSkip(cur: seq<u32>, orig: seq<u32>, width: nat, height: nat,
                   x1: int, y1: int, x2: int, y2: int, color: u32, xx: int)
    requires !(0 <= xx < width)
    requires LineScan(cur, orig, width, height, x1, y1, x2, y2, color, xx)
    ensures LineScan(cur, orig, width, height, x1, y1, x2, y2, color, xx + 1)
  {
    CanvasCoords(width, height);
  }

  /** The three vertices of a triangle. */
  datatype Tri = Tri(x1: int, y1: int, x2: int, y2: int, x3: int, y3: int)

  /** olivec_fill_triangle's three conditional swaps: the same three
      vertices, ordered by y. */
  function SortByY(t: Tri): (s: Tri)
    ensures s.y1 <= s.y2 <= s.y3
    ensures multiset{(s.x1, s.y1), (s.x2, s.y2), (s.x3, s.y3)}
         == multiset{(t.x1, t.y1), (t.x2, t.y2), (t.x3, t.y3)}
  {
    var a := if t.y1 > t.y2 then Tri(t.x2, t.y2, t.x1, t.y1, t.x3, t.y3) else t;
    var b := if a.y2 > a.y3 then Tri(a.x1, a.y1, a.x3, a.y3, a.x2, a.y2) else a;
    if b.y1 > b.y2 then Tri(b.x2, b.y2, b.x1, b.y1, b.x3, b.y3) else b
  }

  /** Column of the edge from (xa, ya) to (xb, yb) on row y, as the
      scanline loops compute it: (y - ya)*(xb - xa)/(yb - ya) + xa, or xa
      on a horizontal edge. */
  function EdgeX(xa: int, ya: int, xb: int, yb: int, y: int): int {
    if yb - ya != 0 then CDiv((y - ya) * (xb - xa), yb - ya) + xa else xa
  }

  /** Pixels of the first pass: rows y1..y2 of the sorted triangle,
      between edges 1-2 and 1-3. */
  predicate InUpperPass(s: Tri, px: int, py: int) {
    var a := EdgeX(s.x1, s.y1, s.x2, s.y2, py);
    var b := EdgeX(s.x1, s.y1, s.x3, s.y3, py);
    s.y1 <= py <= s.y2 && Min(a, b) <= px <= Max(a, b)
  }

  /** Pixels of the second pass: rows y2..y3, between edges 3-2 and 3-1. */
  predicate InLowerPass(s: Tri, px: int, py: int) {
    var a := EdgeX(s.x3, s.y3, s.x2, s.y2, py);
    var b := EdgeX(s.x3, s.y3, s.x1, s.y1, py);
    s.y2 <= py <= s.y3 && Min(a, b) <= px <= Max(a, b)
  }

  /** The topmost vertex is painted by the first pass and the bottom one
      by the second. */
  lemma ExtremeVerticesPainted(t: Tri)
    ensures InUpperPass(SortByY(t), SortByY(t).x1, SortByY(t).y1)
    ensures InLowerPass(SortByY(t), SortByY(t).x3, SortByY(t).y3)
  {
  }

  /** olivec_fill_triangle: the first pass mixes `color` into the upper
      band, the second pass into the lower band. Row y2 belongs to both
      bands, so a pixel both spans reach is mixed twice. */
  method FillTriangle(pixels: array<u32>, width: nat, height: nat,
                      x1: int, y1: int, x2: int, y2: int, x3: int, y3: int, color: u32)
    requires width * height <= pixels.Length
    modifies pixels
    ensures forall i :: 0 <= i < width * height ==>
      var s := SortByY(Tri(x1, y1, x2, y2, x3, y3));
      pixels[i] == MixIf(MixIf(old(pixels[i]), color, InUpperPass(s, Col(width, i), Row(width, i))),
                         color, InLowerPass(s, Col(width, i), Row(width, i)))
    ensures forall i :: width * height <= i < pixels.Length ==> pixels[i] == old(pixels[i])
  {
    var s := SortByY(Tri(x1, y1, x2, y2, x3, y3));
    FillUpperBand(pixels, width, height, s, color);
    FillLowerBand(pixels, width, height, s, color);
  }

  /** The first pass of olivec_fill_triangle: rows y1..y2 of the sorted
      triangle, between its edges 1-2 and 1-3. */
  method FillUpperBand(pixels: array<u32>, width: nat, height: nat, s: Tri, color: u32)
    requires width * height <= pixels.Length && s.y1 <= s.y2 <= s.y3
    modifies pixels
    ensures forall i :: 0 <= i < width * height ==>
      pixels[i] == MixIf(old(pixels[i]), color, InUpperPass(s, Col(width, i), Row(width, i)))
    ensures forall i :: width * height <= i < pixels.Length ==> pixels[i] == old(pixels[i])
  {
    CanvasCoords(width, height);
    var yy := s.y1;
    while yy <= s.y2
      invariant s.y1 <= yy <= s.y2 + 1
      invariant forall i :: width * height <= i < pixels.Length ==> pixels[i] == old(pixels[i])
      invariant forall i :: 0 <= i < width * height ==>
        pixels[i] == MixIf(old(pixels[i]), color, InUpperPass(s, Col(width, i), Row(width, i)) && Row(width, i) < yy)
    {
      if 0 <= yy < height {
        var sa := EdgeX(s.x1, s.y1, s.x2, s.y2, yy);
        var sb := EdgeX(s.x1, s.y1, s.x3, s.y3, yy);
        if sa > sb {
          sa, sb := sb, sa;
        }
        MixRow(pixels, width, height, yy, sa, sb, color);
      }
      yy := yy + 1;
    }
  }

  /** The second pass of olivec_fill_triangle: rows y2..y3 of the sorted
      triangle, between its edges 3-2 and 3-1. */
  method FillLowerBand(pixels: array<u32>, width: nat, height: nat, s: Tri, color: u32)
    requires width * height <= pixels.Length && s.y1 <= s.y2 <= s.y3
    modifies pixels
    ensures forall i :: 0 <= i < width * height ==>
      pixels[i] == MixIf(old(pixels[i]), color, InLowerPass(s, Col(width, i), Row(width, i)))
    ensures forall i :: width * height <= i < pixels.Length ==> pixels[i] == old(pixels[i])
  {
    CanvasCoords(width, height);
    var yy := s.y2;
    while yy <= s.y3
      invariant s.y2 <= yy <= s.y3 + 1
      invariant forall i :: width * height <= i < pixels.Length ==> pixels[i] == old(pixels[i])
      invariant forall i :: 0 <= i < width * height ==>
        pixels[i] == MixIf(old(pixels[i]), color, InLowerPass(s, Col(width, i), Row(width, i)) && Row(width, i) < yy)
    {
      if 0 <= yy < height {
        var sa := EdgeX(s.x3, s.y3, s.x2, s.y2, yy);
        var sb := EdgeX(s.x3, s.y3, s.x1, s.y1, yy);
        if sa > sb {
          sa, sb := sb, sa;
        }
        MixRow(pixels, width, height, yy, sa, sb, color);
      }
      yy := yy + 1;
    }
  }
}
