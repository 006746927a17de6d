/** tools/font2c.c: renders the printable ASCII glyphs of a font into
    fixed-size 0/1 grids and writes them as a C table plus an Olivec_Font.
    FreeType is not part of the model: what it yields for each character
    (load success, bitmap_top, rows, width, bytes) is an input. */
module Font2c {
  import opened CTypes
  import Printf
  import ToolCli

  const FROM_CHAR: nat := 32
  const TO_CHAR: nat := 127

  /** One rendered glyph: whether FT_Load_Glyph succeeded, bitmap_top, and
      the bitmap's rows, width and bytes (row-major, `width` per row). */
  datatype Glyph = Glyph(loaded: bool, top: int, rows: nat, width: nat, buffer: seq<u8>)

  /** FreeType's bitmap holds rows*width bytes. */
  predicate WellFormed(g: Glyph) {
    g.loaded ==> |g.buffer| >= g.rows * g.width
  }

  // ---------------------------------------------------------------------
  // Sizes

  /** The largest bitmap_top of the loaded glyphs, or 0. */
  function MaxAscender(gs: seq<Glyph>): (m: int)
    ensures m >= 0
  {
    if gs == [] then 0
    else
      var m := MaxAscender(gs[..|gs| - 1]);
      var g := gs[|gs| - 1];
      if g.loaded && g.top > m then g.top else m
  }

  /** The largest rows - bitmap_top of the loaded glyphs, or 0. */
  function MaxDescender(gs: seq<Glyph>): (m: int)
    ensures m >= 0
  {
    if gs == [] then 0
    else
      var m := MaxDescender(gs[..|gs| - 1]);
      var g := gs[|gs| - 1];
      if g.loaded && g.rows as int - g.top > m then g.rows as int - g.top else m
  }

  /** The largest bitmap width of the loaded glyphs, or 0. */
  function MaxWidth(gs: seq<Glyph>): (m: nat) {
    if gs == [] then 0
    else
      var m := MaxWidth(gs[..|gs| - 1]);
      var g := gs[|gs| - 1];
      if g.loaded && g.width > m then g.width else m
  }

  /** Every loaded glyph is within the maxima, and a positive maximum is
      reached by some loaded glyph. */
  lemma {:induction false} MaximaBound(gs: seq<Glyph>)
    ensures forall k :: 0 <= k < |gs| && gs[k].loaded ==>
      gs[k].top <= MaxAscender(gs) && gs[k].rows as int - gs[k].top <= MaxDescender(gs) && gs[k].width <= MaxWidth(gs)
    ensures MaxAscender(gs) > 0 ==> exists k :: 0 <= k < |gs| && gs[k].loaded && gs[k].top == MaxAscender(gs)
    ensures MaxWidth(gs) > 0 ==> exists k :: 0 <= k < |gs| && gs[k].loaded && gs[k].width == MaxWidth(gs)
  {
    if gs != [] {
      var p := gs[..|gs| - 1];
      MaximaBound(p);
      assert forall k :: 0 <= k < |p| ==> p[k] == gs[k];
    }
  }

  /** determine_bitmap_sizes: height = max ascender + max descender,
      width = max bitmap width, baseline = max ascender, over the glyphs of
      FROM_CHAR..TO_CHAR-1 that load. */
  method DetermineBitmapSizes(glyphs: seq<Glyph>) returns (width: nat, height: nat, baseline: nat)
    ensures baseline == MaxAscender(glyphs)
    ensures height == MaxAscender(glyphs) + MaxDescender(glyphs)
    ensures width == MaxWidth(glyphs)
  {
    var maxAscender := 0;
    var maxDescender := 0;
    var maxWidth := 0;
    var i := 0;
    while i < |glyphs|
      invariant 0 <= i <= |glyphs|
      invariant maxAscender == MaxAscender(glyphs[..i])
      invariant maxDescender == MaxDescender(glyphs[..i])
      invariant maxWidth == MaxWidth(glyphs[..i])
    {
      assert glyphs[..i + 1][..i] == glyphs[..i];
      var g := glyphs[i];
      if g.loaded {
        if g.top > maxAscender {
          maxAscender := g.top;
        }
        if g.rows as int - g.top > maxDescender {
          maxDescender := g.rows as int - g.top;
        }
        if g.width > maxWidth {
          maxWidth := g.width;
        }
      }
      i := i + 1;
    }
    assert glyphs[..i] == glyphs;
    height := maxAscender + maxDescender;
    width := maxWidth;
    baseline := maxAscender;
  }

  // ---------------------------------------------------------------------
  // Placement

  /** skip_lines: baseline - bitmap_top, clamped below at 0. */
  function SkipLines(g: Glyph, baseline: nat): (skip: nat)
    ensures skip >= baseline - g.top
  {
    if baseline - g.top < 0 then 0 else baseline - g.top
  }

  /** Bit (r, x) of the glyph's bitmap: 1 exactly when its byte is
      nonzero. */
  function Pixel(g: Glyph, r: nat, x: nat): (v: int)
    requires WellFormed(g) && g.loaded && r < g.rows && x < g.width
    ensures v == 0 || v == 1
  {
    BufferIndex(g, r, x);
    if g.buffer[g.width * r + x] == 0 then 0 else 1
  }

  /** One grid cell: 0 outside the glyph's band of rows and right of its
      bitmap, else the bitmap's bit. */
  function Cell(g: Glyph, skip: nat, y: nat, x: nat): (v: int)
    requires WellFormed(g) && g.loaded
    ensures v == 0 || v == 1
  {
    if y < skip || y >= skip + g.rows || x >= g.width then 0 else Pixel(g, y - skip, x)
  }

  lemma BufferIndex(g: Glyph, r: nat, x: nat)
    requires WellFormed(g) && g.loaded && r < g.rows && x < g.width
    ensures g.width * r + x < |g.buffer|
  {
    MulLe(r + 1, g.rows, g.width);
  }

  /** The height-by-width grid write_byte_array_code_for_char_to_file
      emits for a glyph. */
  function Grid(g: Glyph, width: nat, height: nat, baseline: nat): (grid: seq<seq<int>>)
    requires WellFormed(g) && g.loaded
    ensures |grid| == height && forall y :: 0 <= y < height ==> grid[y] == GridRow(g, SkipLines(g, baseline), y, width)
  {
    GridRows(g, SkipLines(g, baseline), width, height)
  }

  /** The first n rows of the grid. */
  function GridRows(g: Glyph, skip: nat, width: nat, n: nat): (rows: seq<seq<int>>)
    requires WellFormed(g) && g.loaded
    ensures |rows| == n && forall y :: 0 <= y < n ==> rows[y] == GridRow(g, skip, y, width)
  {
    if n == 0 then [] else GridRows(g, skip, width, n - 1) + [GridRow(g, skip, n - 1, width)]
  }

  /** Row y of the grid of a glyph placed `skip` rows down. */
  function GridRow(g: Glyph, skip: nat, y: nat, width: nat): (row: seq<int>)
    requires WellFormed(g) && g.loaded
    ensures |row| == width
  {
    seq(width, x requires 0 <= x < width => Cell(g, skip, y, x))
  }

  /** With the sizes of determine_bitmap_sizes, no loaded glyph is clipped:
      its bitmap lies inside the grid, starting `baseline - top` rows down,
      and every nonzero byte is a 1 there and every zero byte a 0. */
  lemma GlyphNotClipped(gs: seq<Glyph>, k: nat, width: nat, height: nat, baseline: nat)
    requires k < |gs| && gs[k].loaded && WellFormed(gs[k])
    requires baseline == MaxAscender(gs) && height == MaxAscender(gs) + MaxDescender(gs) && width == MaxWidth(gs)
    ensures var g := gs[k];
      SkipLines(g, baseline) + g.rows <= height && g.width <= width &&
      forall r, x :: 0 <= r < g.rows && 0 <= x < g.width ==>
        Grid(g, width, height, baseline)[SkipLines(g, baseline) + r][x] == Pixel(g, r, x)
  {
    var g := gs[k];
    assert g.top <= baseline && g.rows as int - g.top <= height - baseline && g.width <= width by {
      MaximaBound(gs);
    }
    GlyphFits(g, width, height, baseline);
  }

  /** A glyph within the maxima lands entirely inside the grid. */
  lemma GlyphFits(g: Glyph, width: nat, height: nat, baseline: nat)
    requires g.loaded && WellFormed(g) && baseline <= height
    requires g.top <= baseline && g.rows as int - g.top <= height - baseline && g.width <= width
    ensures SkipLines(g, baseline) + g.rows <= height
    ensures forall r, x :: 0 <= r < g.rows && 0 <= x < g.width ==>
      Grid(g, width, height, baseline)[SkipLines(g, baseline) + r][x] == Pixel(g, r, x)
  {
    var skip := SkipLines(g, baseline);
    assert skip == baseline - g.top;
    var grid := Grid(g, width, height, baseline);
    forall r, x | 0 <= r < g.rows && 0 <= x < g.width
      ensures grid[skip + r][x] == Pixel(g, r, x)
    {
      assert grid[skip + r][x] == Cell(g, skip, skip + r, x);
    }
  }

  // ---------------------------------------------------------------------
  // Emission

  /** `0, ` or `1, ` */
  function CellText(v: int): seq<char> {
    if v == 0 then "0, " else "1, "
  }

  function CellsText(row: seq<int>): seq<char> {
    if row == [] then [] else CellsText(row[..|row| - 1]) + CellText(row[|row| - 1])
  }

  lemma CellsTextSnoc(row: seq<int>, v: int)
    ensures CellsText(row + [v]) == CellsText(row) + CellText(v)
  {
    assert (row + [v])[..|row|] == row;
  }

  function RowText(row: seq<int>): seq<char> {
    "        {" + CellsText(row) + "},\n"
  }

  function RowsText(grid: seq<seq<int>>): seq<char> {
    if grid == [] then [] else RowsText(grid[..|grid| - 1]) + RowText(grid[|grid| - 1])
  }

  lemma RowsTextSnoc(grid: seq<seq<int>>, row: seq<int>)
    ensures RowsText(grid + [row]) == RowsText(grid) + RowText(row)
  {
    assert (grid + [row])[..|grid|] == grid;
  }

  /** A glyph's table entry: `[c] = { // 'c'`, its rows, `},`. */
  function GlyphText(c: nat, grid: seq<seq<int>>): seq<char>
    requires c < TO_CHAR
  {
    GlyphHead(c) + RowsText(grid) + "    },\n"
  }

  function GlyphHead(c: nat): seq<char>
    requires c < TO_CHAR
  {
    "    [" + Printf.DecimalDigits(c) + "] = { // '" + [c as char] + "'\n"
  }

  /** The text written for character c: nothing when its glyph fails to
      load. */
  function GlyphCode(c: nat, g: Glyph, width: nat, height: nat, baseline: nat): seq<char>
    requires c < TO_CHAR && WellFormed(g)
  {
    if g.loaded then GlyphText(c, Grid(g, width, height, baseline)) else []
  }

  /** write_byte_array_code_for_char_to_file. */
  method WriteGlyph(c: nat, g: Glyph, width: nat, height: nat, baseline: nat) returns (code: seq<char>)
    requires c < TO_CHAR && WellFormed(g)
    ensures code == GlyphCode(c, g, width, height, baseline)
  {
    if !g.loaded {
      return [];
    }
    var skip := baseline - g.top;
    if skip < 0 {
      skip := 0;
    }
    assert skip == SkipLines(g, baseline);
    var rows := WriteRows(g, skip, width, height);
    assert rows == RowsText(Grid(g, width, height, baseline));
    code := GlyphHead(c) + rows + "    },\n";
  }

  /** The rows of a loaded glyph's grid, top to bottom. */
  method WriteRows(g: Glyph, skip: nat, width: nat, height: nat) returns (rows: seq<char>)
    requires WellFormed(g) && g.loaded
    ensures rows == RowsText(GridRows(g, skip, width, height))
  {
    rows := [];
    var y := 0;
    while y < height
      invariant 0 <= y <= height
      invariant rows == RowsText(GridRows(g, skip, width, y))
    {
      var row := WriteRow(g, skip, y, width);
      RowsTextSnoc(GridRows(g, skip, width, y), GridRow(g, skip, y, width));
      rows := rows + row;
      y := y + 1;
    }
  }

  /** One row of the grid: all zeros outside the band, else a bit per
      column, 0 right of the bitmap. */
  method WriteRow(g: Glyph, skip: nat, y: nat, width: nat) returns (row: seq<char>)
    requires WellFormed(g) && g.loaded
    ensures row == RowText(GridRow(g, skip, y, width))
  {
    var cells := WriteCells(g, skip, y, width);
    row := "        {" + cells + "},\n";
  }

  /** The cells of one row, one `n,` per column. */
  method WriteCells(g: Glyph, skip: nat, y: nat, width: nat) returns (text: seq<char>)
    requires WellFormed(g) && g.loaded
    ensures text == CellsText(GridRow(g, skip, y, width))
  {
    text := [];
    var blank := y < skip || y >= skip + g.rows;
    var x := 0;
    while x < width
      invariant 0 <= x <= width
      invariant text == CellsText(GridRow(g, skip, y, width)[..x])
    {
      var v := ReadCell(g, skip, y, x, blank);
      CellsStep(g, skip, y, width, x, v);
      text := text + CellText(v);
      x := x + 1;
    }
    assert GridRow(g, skip, y, width)[..x] == GridRow(g, skip, y, width);
  }

  /** The bit written for column x of row y. */
  method ReadCell(g: Glyph, skip: nat, y: nat, x: nat, blank: bool) returns (v: int)
    requires WellFormed(g) && g.loaded && blank == (y < skip || y >= skip + g.rows)
    ensures v == Cell(g, skip, y, x)
  {
    v := 0;
    if !blank && x < g.width {
      BufferIndex(g, y - skip, x);
      v := if g.buffer[g.width * (y - skip) + x] == 0 then 0 else 1;
    }
  }

  lemma CellsStep(g: Glyph, skip: nat, y: nat, width: nat, x: nat, v: int)
    requires WellFormed(g) && g.loaded && x < width && v == Cell(g, skip, y, x)
    ensures CellsText(GridRow(g, skip, y, width)[..x + 1]) == CellsText(GridRow(g, skip, y, width)[..x]) + CellText(v)
  {
    var cells := GridRow(g, skip, y, width);
    assert cells[..x + 1] == cells[..x] + [v];
    CellsTextSnoc(cells[..x], v);
  }

  /** The entries of the characters FROM_CHAR + 0 .. FROM_CHAR + |gs| - 1. */
  function Entries(gs: seq<Glyph>, width: nat, height: nat, baseline: nat): seq<char>
    requires |gs| <= TO_CHAR - FROM_CHAR
    requires forall k :: 0 <= k < |gs| ==> WellFormed(gs[k])
  {
    if gs == [] then []
    else Entries(gs[..|gs| - 1], width, height, baseline) + GlyphCode(FROM_CHAR + |gs| - 1, gs[|gs| - 1], width, height, baseline)
  }

  lemma EntriesSnoc(gs: seq<Glyph>, k: nat, width: nat, height: nat, baseline: nat)
    requires k < |gs| <= TO_CHAR - FROM_CHAR
    requires forall j :: 0 <= j < |gs| ==> WellFormed(gs[j])
    ensures Entries(gs[..k + 1], width, height, baseline) ==
      Entries(gs[..k], width, height, baseline) + GlyphCode(FROM_CHAR + k, gs[k], width, height, baseline)
  {
    assert gs[..k + 1][..k] == gs[..k];
  }

  /** The include and the opening of the `<name>_glyphs` table. */
  function Prologue(name: seq<char>, width: nat, height: nat): seq<char> {
    "#include \"olive.c\"\n\n" +
    "static char " + name + "_glyphs[" + Printf.DecimalDigits(TO_CHAR) + "][" + Printf.DecimalDigits(height) + "][" + Printf.DecimalDigits(width) + "] = {\n"
  }

  /** The end of the table and the Olivec_Font pointing into it. */
  function Epilogue(name: seq<char>, width: nat, height: nat): seq<char> {
    "};\n" +
    "\nstatic Olivec_Font " + name + " = {\n" +
    "    .glyphs = &" + name + "_glyphs[0][0][0],\n" +
    "    .width = " + Printf.DecimalDigits(width) + ",\n" +
    "    .height = " + Printf.DecimalDigits(height) + ",\n" +
    "};\n"
  }

  /** The whole generated file. */
  function FontFile(gs: seq<Glyph>, name: seq<char>): seq<char>
    requires |gs| <= TO_CHAR - FROM_CHAR
    requires forall k :: 0 <= k < |gs| ==> WellFormed(gs[k])
  {
    var width := MaxWidth(gs);
    var height := MaxAscender(gs) + MaxDescender(gs);
    Prologue(name, width, height) + Entries(gs, width, height, MaxAscender(gs)) + Epilogue(name, width, height)
  }

  /** The loop over FROM_CHAR..TO_CHAR-1 writing each glyph's entry. */
  method WriteEntries(gs: seq<Glyph>, width: nat, height: nat, baseline: nat) returns (text: seq<char>)
    requires |gs| == TO_CHAR - FROM_CHAR
    requires forall k :: 0 <= k < |gs| ==> WellFormed(gs[k])
    ensures text == Entries(gs, width, height, baseline)
  {
    text := [];
    var c := FROM_CHAR;
    while c < TO_CHAR
      invariant FROM_CHAR <= c <= TO_CHAR
      invariant text == Entries(gs[..c - FROM_CHAR], width, height, baseline)
    {
      var entry := WriteGlyph(c, gs[c - FROM_CHAR], width, height, baseline);
      EntriesSnoc(gs, c - FROM_CHAR, width, height, baseline);
      text := text + entry;
      c := c + 1;
    }
    assert gs[..c - FROM_CHAR] == gs;
  }

  /** What FreeType reports when opening the font file. */
  datatype FontLoad = InitError | UnknownFormat | FaceError | Face(glyphs: seq<Glyph>)

  datatype Emitted = Nothing | ToFile(path: seq<char>, text: seq<char>) | ToStdout(text: seq<char>)

  /** generate_c_file_from_ttf: 1 when FreeType cannot start or read the
      font, -1 when the output file cannot be opened, else 0 with the file
      written to the output path or stdout. */
  method GenerateFile(font: FontLoad, output: Option<seq<char>>, canOpen: bool, name: seq<char>)
    returns (status: int, emitted: Emitted)
    requires font.Face? ==> |font.glyphs| == TO_CHAR - FROM_CHAR && forall k :: 0 <= k < |font.glyphs| ==> WellFormed(font.glyphs[k])
    ensures !font.Face? ==> status == 1 && emitted == Nothing
    ensures font.Face? && output.Some? && !canOpen ==> status == -1 && emitted == Nothing
    ensures font.Face? && output.Some? && canOpen ==> status == 0 && emitted == ToFile(output.value, FontFile(font.glyphs, name))
    ensures font.Face? && output.None? ==> status == 0 && emitted == ToStdout(FontFile(font.glyphs, name))
  {
    if !font.Face? {
      return 1, Nothing;
    }
    var gs := font.glyphs;
    var width, height, baseline := DetermineBitmapSizes(gs);
    if output.Some? && !canOpen {
      return -1, Nothing;
    }
    var entries := WriteEntries(gs, width, height, baseline);
    var text := Prologue(name, width, height) + entries + Epilogue(name, width, height);
    assert text == FontFile(gs, name);
    status := 0;
    emitted := if output.Some? then ToFile(output.value, text) else ToStdout(text);
  }

  /** main: the argument loop and name check (default "font") give 1 on
      failure; otherwise the status of generate_c_file_from_ttf. */
  method ToolMain(argv: seq<seq<char>>, font: FontLoad, canOpen: bool) returns (status: int, emitted: Emitted)
    requires |argv| > 0
    requires font.Face? ==> |font.glyphs| == TO_CHAR - FROM_CHAR && forall k :: 0 <= k < |font.glyphs| ==> WellFormed(font.glyphs[k])
    ensures status in {0, 1, -1}
    ensures ToolCli.Parse(argv[1..], None, None, None).Err? ==> status == 1 && emitted == Nothing
    ensures status == 0 <==>
      var p := ToolCli.Parse(argv[1..], None, None, None);
      p.Ok? && (p.value.name.None? || ToolCli.ValidName(p.value.name.value)) &&
      font.Face? && (p.value.output.None? || canOpen)
    ensures status == 0 ==>
      var o := ToolCli.Parse(argv[1..], None, None, None).value;
      var text := FontFile(font.glyphs, if o.name.Some? then o.name.value else "font");
      emitted == (if o.output.Some? then ToFile(o.output.value, text) else ToStdout(text))
  {
    var parsed := ToolCli.ParseArgs(argv);
    if parsed.Err? {
      return 1, Nothing;
    }
    var opts := parsed.value;
    var name := ToolCli.ResolveName(opts.name, "font");
    if name.Err? {
      return 1, Nothing;
    }
    status, emitted := GenerateFile(font, opts.output, canOpen, name.value);
  }
}
