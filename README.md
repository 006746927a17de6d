# olive.c, its tools and its hosts, modelled in Dafny

This project models the core of olive.c, a single-header software rasteriser that
draws into a caller-owned buffer of 32-bit RGBA pixels, together with the code
around it:

- `olive.dfy`: the canvas operations of `olive.c` (fill, rectangle normalisation,
  colour packing and alpha mixing, rectangles, circles, lines and triangles) as
  methods over an `array<u32>`, each proved against a pixel-by-pixel specification.
- `bridge.dfy`: the browser hosts `js/vc.js` and `index.js`: the import lookup,
  the canvas descriptor read from WebAssembly memory, and the `first`/`loop`
  animation drivers as classes whose fields the callbacks update.
- `sv.dfy`, `nob.dfy`, `nobuild.dfy`: the string views of `dev-deps/sv.h`, the
  dynamic arrays, temporary arena, command rendering and path helpers of
  `dev-deps/nob.h`, and the C-string arrays and `CHAIN` token builder of `nobuild.h`.
- `obj2c.dfy`, `obj2c_components.dfy`, `obj2c_main.dfy`: `tools/obj2c.c`, from the
  line parser and the generated header to the connected-component labelling, which
  is proved to number the components of the face graph in order of their lowest vertex.
- `png2c.dfy`, `font2c.dfy`, `toolcli.dfy`: the image and font converters and the
  command line they share.
- `testc.dfy`: the record/replay harness of `test.c`.
- `termscale.dfy`: the terminal back end of `demos/vc.c`, `examples/3d.c` and
  `examples/triangle.c`, which averages blocks of pixels into characters.
- `ctypes.dfy`, `printf.dfy`: fixed-width integers, C's truncating division, the
  ctype.h classes and the printf conversions the tools emit.

Images, fonts, files and the browser are inputs of the model: a decoded image,
FreeType's glyphs, a file's contents or whether a write succeeds are parameters,
and the events a host produces are recorded in a log.

## Model

| member | source | states |
|---|---|---|
| Olive.PackUnpack | olive.c:66-81 | packing the unpacked components of any colour gives the colour back |
| Olive.UnpackPack | olive.c:66-81 | unpacking a packed four-byte array gives the bytes back |
| Olive.UnpackRgba32 | olive.c:66-72 | the mask-and-shift loop yields exactly the components `Unpack(c)` |
| Olive.PackRgba32 | olive.c:74-81 | the OR-and-shift loop yields exactly `Pack(comp)`: the bytes never overlap |
| Olive.MixCompsBetween | olive.c:83-86 | for byte inputs the mix lies between c1 and c2; a = 0 gives c1, a = 255 gives c2 |
| Olive.MixComps | olive.c:83-86 | `c1 + (c2 - c1)*a/255` with truncating division, stored as a uint8_t; for byte inputs the store loses nothing |
| Olive.ScaleBetween | olive.c:85 | `(c2 - c1)*a/255` with C's truncating division lies between 0 and c2 - c1 |
| Olive.MixColors | olive.c:88-101 | the result keeps c1's alpha, and each of R, G, B is `MixComps` of the two components by c2's alpha |
| Olive.MixTransparent | olive.c:88-101 | a colour with alpha 0 leaves the pixel unchanged |
| Olive.MixOpaque | olive.c:88-101 | a colour with alpha 255 replaces R, G, B and keeps the pixel's alpha |
| Olive.SpanShape | olive.c:37-41 | a positive extent covers x..x+w-1, a negative one x+w+1..x, a zero one only x |
| Olive.NormalizedIsClip | olive.c:19-56 | the normalized rectangle exists iff the rectangle meets the canvas, and then covers exactly its canvas pixels |
| Olive.NormalizeRect | olive.c:30-56 | returns false exactly when the rectangle misses the canvas; otherwise the sorted, clamped corners, all inside the canvas |
| Olive.IdxFacts | olive.c:112 | `y*width + x` of an in-canvas pixel is a canvas word whose column and row are x and y |
| Olive.Fill | olive.c:12-17 | every word of the width*height canvas becomes `color`; words beyond it are unchanged |
| Olive.FillRect | olive.c:103-115 | `color` is mixed exactly once into exactly the canvas pixels of the rectangle; others unchanged |
| Olive.FillBox | olive.c:110-114 | the two nested loops mix every pixel of the normalized box once and no other |
| Olive.FillBoxRow | olive.c:111-113 | the inner loop mixes row yy of the box and advances the scan state |
| Olive.BoxScanStep | olive.c:112 | one write keeps the row-major scan invariant of the box |
| Olive.CanvasCoords | olive.c:112 | every canvas word is the pixel at its own column and row |
| Olive.SquareBound | olive.c:129 | `dx*dx <= r*r` forces `abs(dx) <= abs(r)` |
| Olive.DiscInBox | olive.c:121-123 | every pixel of the disc lies in the box of side 2*(r + sign(r)) around the centre |
| Olive.DiscClip | olive.c:121-123 | every canvas pixel of the disc lies in the normalized box, so the box loop sees all of them |
| Olive.FillCircle | olive.c:117-134 | `color` is mixed exactly once into exactly the canvas pixels with `dx*dx + dy*dy <= r*r` |
| Olive.FillDiscInBox | olive.c:125-133 | the nested loops over the box mix exactly the disc pixels of the box |
| Olive.FillDiscRow | olive.c:126-132 | the inner loop mixes the disc pixels of row yy and advances the scan state |
| Olive.DiscScanStep | olive.c:127-131 | one pixel is mixed exactly when it lies in the disc, and the scan invariant is kept |
| Olive.PixelCoords | olive.c:130 | word i of the canvas is pixel (i % width, i / width) |
| Olive.MixColumn | olive.c:163-171 | mixes exactly the in-canvas pixels of column x between the two rows |
| Olive.MixRow | olive.c:207-211 | mixes exactly the in-canvas pixels of row y between the two columns |
| Olive.LineRow | olive.c:146-153 | the row the line reaches at column px, in C's truncating arithmetic; at x1 it is y1 |
| Olive.LineStartsAtFirstEndpoint | olive.c:137-173 | the first endpoint is always drawn |
| Olive.DrawLine | olive.c:137-173 | `color` is mixed exactly once into exactly the canvas pixels on the line: for dx != 0 each column's span between sy1 and sy2, else the vertical segment |
| Olive.DrawSlopedLine | olive.c:145-161 | the column loop of the sloped case mixes exactly the spans of every column between the endpoints |
| Olive.LineColumn | olive.c:151-160 | one column: the span between the rows at x and x + 1, clipped to the canvas |
| Olive.ColumnStep | olive.c:152-159 | after mixing column xx's span the line scan holds up to xx + 1 |
| Olive.ColumnSkip | olive.c:151 | a column outside the canvas changes nothing and the scan moves on |
| Olive.SortByY | olive.c:181-194 | the three swaps sort the vertices by y and permute them |
| Olive.ExtremeVerticesPainted | olive.c:201-231 | the top vertex is covered by the first pass and the bottom one by the second |
| Olive.FillTriangle | olive.c:175-232 | every canvas pixel is mixed once for each pass that covers it (row y2 by both), nothing else changes |
| Olive.FillUpperBand | olive.c:196-213 | the first pass mixes exactly the pixels between edges 1-2 and 1-3 on rows y1..y2 |
| Olive.FillLowerBand | olive.c:215-231 | the second pass mixes exactly the pixels between edges 3-2 and 3-1 on rows y2..y3 |
| CTypes.ToUpper | tools/png2c.c:38 | `toupper` in the C locale: lower-case letters move to their upper-case letter, every other character is kept |
| CTypes.CDiv | olive.c:85 | C's signed `/`: agrees with Euclidean division on non-negative operands and is non-negative when the signs agree |
| CTypes.CDivTruncates | olive.c:146 | C's quotient truncates toward zero: q*b never overshoots a in magnitude, falls short by less than b, and keeps a's sign |
| CTypes.CDivAbs | olive.c:152-153 | the magnitude of C's quotient is the quotient of the magnitudes, and a non-zero quotient is positive iff the operand signs agree |
| CTypes.BeforeNull | nobuild.h:472-504 | the items of a NULL-terminated list: a prefix of the list, ending at its first NULL |
| Printf.DigitChar | tools/obj2c.c:203 | the `%zu` digit of 0..9 is a digit character with that value |
| Printf.DecimalDigits | tools/obj2c.c:203 | `%zu` writes at least one digit, all digits, with no leading zero |
| Printf.SignedDecimal | tools/obj2c.c:552 | `%d` writes '-' before the digits of a negative value |
| Printf.DecimalRoundTrip | tools/obj2c.c:203 | reading `%zu`'s digits back gives the number |
| Printf.HexDigit | tools/png2c.c:52 | the upper-case hex digit of 0..15 |
| Printf.HexDigitsRoundTrip | tools/png2c.c:52 | n hex digits read back give the value modulo 16^n |
| Printf.Hex08RoundTrip | tools/png2c.c:52 | `%08X` of a 32-bit value reads back as the value: nothing is lost |
| Sv.TrimmedLeftShape | dev-deps/sv.h:92-100 | trimming on the left drops exactly a whitespace prefix and stops at the first non-space |
| Sv.TrimmedRightShape | dev-deps/sv.h:102-110 | trimming on the right drops exactly a whitespace suffix and stops at the last non-space |
| Sv.TrimmedLeftIdempotent | dev-deps/sv.h:92-100 | trimming twice changes nothing more |
| Sv.TrimLeft | dev-deps/sv.h:92-100 | the index loop skips exactly the leading whitespace; its nob.h twin at dev-deps/nob.h:1557-1565 behaves the same |
| Sv.TrimRight | dev-deps/sv.h:102-110 | the index loop drops exactly the trailing whitespace; its nob.h twin at dev-deps/nob.h:1567-1575 behaves the same |
| Sv.Trim | dev-deps/sv.h:112-115 | right trim of the left trim; the result is empty or starts and ends with a non-space; its nob.h twin at dev-deps/nob.h:1577-1580 behaves the same |
| Sv.ChopLeft | dev-deps/sv.h:117-129 | the chunk is the first min(n, count) characters and chunk + rest is the view; its nob.h twin at dev-deps/nob.h:1535-1547 behaves the same |
| Sv.ChopRight | dev-deps/sv.h:131-142 | the chunk is the last min(n, count) characters and rest + chunk is the view |
| Sv.IndexOf | dev-deps/sv.h:144-159 | found iff `c` occurs, and then at its first occurrence |
| Sv.TryChopByDelim | dev-deps/sv.h:161-180 | succeeds iff the delimiter occurs; then the view is chunk, delimiter, rest with no delimiter in the chunk; on failure the view is untouched |
| Sv.ChopByDelim | dev-deps/sv.h:182-200 | the chunk is the longest delimiter-free prefix; the delimiter is consumed when present, else the whole view is taken; its nob.h twin at dev-deps/nob.h:1515-1533 behaves the same |
| Sv.ChopBySvAsWritten | dev-deps/sv.h:202-226 | the loop as written, unsigned count arithmetic included: the result is the as-written reference |
| Sv.ChopBySvMissesFinalDelimiter | dev-deps/sv.h:208-214 | a delimiter that ends the view is not found: "ab," chopped by "," gives the whole view |
| Sv.ChopBySvShortViewWraps | dev-deps/sv.h:208-225 | a delimiter longer than the view wraps the unsigned count: the result is no valid view |
| Sv.FirstOccurrence | dev-deps/sv.h:202-226 | the first position at or after k where the delimiter starts, or past the end when there is none |
| Sv.ChopBySv | dev-deps/sv.h:202-226 | corrected: the chunk holds no occurrence; when the delimiter occurs the view is chunk, delimiter, rest, else the chunk is the view |
| Sv.Eq | dev-deps/sv.h:248-255 | equal counts and equal bytes iff the views are equal; its nob.h twin at dev-deps/nob.h:1587-1594 behaves the same |
| Sv.StartsWithIsPrefix | dev-deps/sv.h:228-236 | starts_with holds iff the view is the prefix followed by something; its nob.h twin at dev-deps/nob.h:1608-1616 behaves the same |
| Sv.EndsWithIsSuffix | dev-deps/sv.h:238-246 | ends_with holds iff the view is something followed by the suffix; its nob.h twin at dev-deps/nob.h:1596-1605 behaves the same |
| Sv.StartsWith | dev-deps/sv.h:228-236 | false when the prefix is longer than the view, else true iff the view's first characters are the prefix |
| Sv.EndsWith | dev-deps/sv.h:238-246 | false when the suffix is longer than the view, else true iff the view's last characters are the suffix |
| Sv.FoldCase | dev-deps/sv.h:265-271 | only 'A'..'Z' change, to their lower-case letter |
| Sv.EqIgnoreCase | dev-deps/sv.h:257-276 | the loop answers exactly "equal after case folding" |
| Sv.EqualIgnoringCaseLaws | dev-deps/sv.h:257-276 | case-insensitive equality is reflexive, symmetric, transitive and folds only letters ("[" is not "{") |
| Sv.DigitRun | dev-deps/sv.h:278-298 | the leading digit run: all digits, ending at a non-digit or the end |
| Sv.ToU64 | dev-deps/sv.h:278-287 | the leading digits read in base 10, modulo 2^64 |
| Sv.ChopU64 | dev-deps/sv.h:289-298 | the same value as sv_to_u64, and the view loses exactly the digit run |
| Sv.ChopLeftWhile | dev-deps/sv.h:300-307 | cuts off the longest prefix satisfying the predicate; chunk + rest is the view |
| Sv.TakeLeftWhile | dev-deps/sv.h:309-316 | the longest prefix of the view whose characters all satisfy the predicate |
| Nob.Shift | dev-deps/nob.h:234-236 | pops the first element of a non-empty array: the element followed by the rest is the array; shift_args at nobuild.h:1142-1149 behaves the same |
| Nob.DoubledFits | dev-deps/nob.h:286-299 | the doubling loop stops at the first capacity that fits: at least the needed count, and less than twice it unless no doubling was needed |
| Nob.DynArray.Realloc | dev-deps/nob.h:277 | a new block of the new capacity that starts with the old items |
| Nob.DynArray.Append | dev-deps/nob.h:272-281 | the contents gain the item at the end; a full array grows to NOB_DA_INIT_CAP when empty and doubles otherwise |
| Nob.DynArray.AppendMany | dev-deps/nob.h:286-299 | the contents gain the new items at the end; the capacity is kept when they fit and otherwise doubled from the initial capacity until they do |
| Nob.DynArray.Resize | dev-deps/nob.h:302-310 | the count becomes the new size; the capacity grows to it only when larger; the items that remain are kept |
| Nob.DynArray.Last | dev-deps/nob.h:312 | the final item of a non-empty array |
| Nob.DynArray.RemoveUnordered | dev-deps/nob.h:313-318 | the last item moves into slot j and the count drops by one |
| Nob.GrowCapacity | dev-deps/nob.h:288-294 | zero becomes the initial capacity, then the capacity doubles until the items fit |
| Nob.CopyAfter | dev-deps/nob.h:297 | the memcpy places the new items right after the old ones |
| Nob.RemovedUnorderedLaws | dev-deps/nob.h:313-318 | removal drops exactly one copy of the item at j, keeps the length minus one and keeps every other slot but the last |
| Nob.TempArena.Alloc | dev-deps/nob.h:1331-1337 | returns NULL and changes nothing when the bytes do not fit; otherwise the old fill level, which grows by n |
| Nob.TempArena.Strdup | dev-deps/nob.h:1321-1329 | the string and its terminator are copied at the old fill level; the rest of the buffer is unchanged |
| Nob.TempArena.Save | dev-deps/nob.h:1362-1365 | the checkpoint is the current fill level |
| Nob.TempArena.Rewind | dev-deps/nob.h:1367-1370 | the fill level goes back to the checkpoint |
| Nob.TempArena.Reset | dev-deps/nob.h:1357-1360 | the whole buffer is free again |
| Nob.ScopedTemp | dev-deps/nob.h:1263-1314 | every allocation between a save and the rewind to it lies above the checkpoint and inside the buffer, and all are released |
| Nob.JoinRenderedSnoc | dev-deps/nob.h:793-807 | rendering one more argument appends a space and its rendering |
| Nob.AppendArg | dev-deps/nob.h:797-805 | one loop step: a separating space unless first, then the argument, quoted when it holds a space |
| Nob.AppendQuoted | dev-deps/nob.h:802-804 | the quoted form: a quote, the argument, a quote |
| Nob.CmdRender | dev-deps/nob.h:793-807 | the rendering of the arguments before the first NULL, space separated, is appended to the builder |
| Nob.RenderPrefixStep | dev-deps/nob.h:795-805 | one more argument before the first NULL extends the rendering by a space and that argument |
| Nob.RenderStopsAtNull | dev-deps/nob.h:796 | nothing after a NULL is rendered |
| Nob.RenderQuotesSpaces | dev-deps/nob.h:799-805 | `cc -o 'a b'` is the rendering of a command whose last argument holds a space |
| Nob.PathName | dev-deps/nob.h:1454-1465 | a suffix of the path with no '/', preceded by a '/' unless it is the whole path |
| Nob.DynArray.constructor | dev-deps/nob.h:267-275 | a zero-initialised array: no items and no storage, with the initial capacity the first append will take |
| Nob.TempArena.constructor | dev-deps/nob.h:437-439 | the temporary arena starts empty with NOB_TEMP_CAPACITY bytes of storage |
| Nobuild.CstrEndsWithIsSuffix | nobuild.h:446-452 | cstr_ends_with holds iff the string is something followed by the postfix |
| Nobuild.CstrEndsWith | nobuild.h:446-452 | true iff the postfix is no longer than the string and matches its trailing characters one by one |
| Nobuild.CstrNoExt | nobuild.h:454-470 | the path before its last '.', which no '.' follows; the path itself when it has no '.' |
| Nobuild.CstrArrayAppend | nobuild.h:435-444 | a fresh array holding the old entries followed by the new string |
| Nobuild.CstrArrayMake | nobuild.h:472-508 | a fresh array holding exactly the arguments before the terminating NULL; empty when the first is NULL |
| Nobuild.ValuesBeforeNull | nobuild.h:491-505 | the entries the copying loop writes are the arguments before the first NULL |
| Nobuild.JoinedLength | nobuild.h:516-522 | the joined length is the sum of the lengths plus count-1 separators, the buffer size the source allocates |
| Nobuild.CopyInto | nobuild.h:534-535 | memcpy places the string at the offset and leaves the rest of the buffer unchanged |
| Nobuild.CstrArrayJoin | nobuild.h:510-542 | "" for no strings; otherwise the strings separated by `sep`, NUL-terminated |
| Nobuild.AppendPiece | nobuild.h:528-536 | one memcpy: the text written so far followed by the piece |
| Nobuild.JoinedStep | nobuild.h:528-536 | joining one more string adds the separator (unless it is the first) and the string |
| Nobuild.WriteJoined | nobuild.h:527-539 | the copying loop writes exactly the joined strings and the terminator into the computed buffer |
| Nobuild.TotalLengthPrefix | nobuild.h:519-521 | the lengths summed so far never exceed the total |
| Nobuild.EndAt | nobuild.h:196-199 | the first END at or after k: no END before it |
| Nobuild.InOutAreNotCommands | nobuild.h:813-820 | IN and OUT tokens never become commands |
| Nobuild.SnocFilters | nobuild.h:779-820 | one more token adds its path to the inputs or outputs, or its line to the commands |
| Nobuild.Chain.SetIoOrCountCmds | nobuild.h:779-811 | a CMD token counts one more command; IN and OUT set their file once and fail (PANIC) when it was already set |
| Nobuild.Chain.PushCmd | nobuild.h:813-820 | a CMD token's arguments become the next command; other tokens change nothing |
| Nobuild.FirstPass | nobuild.h:824-833 | succeeds iff the token list is a well-formed chain; then the command count and the IN and OUT files are those of the tokens |
| Nobuild.ScanToken | nobuild.h:830-831 | one step of the first pass keeps the recorded state in step with the tokens read, or finds the chain malformed |
| Nobuild.TracksStep | nobuild.h:779-811 | one set_io_or_count_cmds call succeeds exactly when the prefix stays well formed |
| Nobuild.FailureStopsChain | nobuild.h:785-803 | a malformed prefix makes the whole chain malformed |
| Nobuild.SecondPass | nobuild.h:841-850 | the second pass fills the commands array with exactly the tokens' command lines, in order |
| Nobuild.SegmentLines | nobuild.h:845-849 | reading one more token adds its command line, if any |
| Nobuild.BuildFromTokens | nobuild.h:822-853 | succeeds iff the tokens form a chain; then the commands are the CMD lines in order and the files those of IN and OUT |
| Nobuild.PrefixFilters | nobuild.h:822-853 | the inputs, outputs and commands of a prefix are prefixes of those of the whole |
| Nobuild.Chain.constructor | nobuild.h:824 | a zeroed chain: no input, no output and no commands |
| Obj2c.ContextRealloc | tools/obj2c.c:36-40 | the old block when the new size is no larger; else a fresh block of the new size starting with the old contents |
| Obj2c.StrToL | tools/obj2c.c:286 | strtol's end offset lies within the text, and a text with no number reads as 0 with offset 0 |
| Obj2c.DigitRunOfDigits | tools/obj2c.c:286 | the digit run of digits followed by a non-digit is exactly those digits |
| Obj2c.StrToLReadsDecimal | tools/obj2c.c:286 | strtol reads back what `%d` printed and stops right after it |
| Obj2c.StrToLOfTrimmed | tools/obj2c.c:286 | on trimmed text with an optional sign and k digits, strtol gives the signed value and consumes sign and digits |
| Obj2c.SlashPart | tools/obj2c.c:291-301 | the index after an optional `/` consumes part of the line and never grows it |
| Obj2c.WordRun | tools/obj2c.c:302 | the closing loop stops at the first whitespace or the end |
| Obj2c.FaceTriple | tools/obj2c.c:281-303 | what is left of the line after a vertex reference is empty or starts with whitespace |
| Obj2c.ParseFaceTriple | tools/obj2c.c:281-303 | reads one `v[/vt[/vn]]` reference as the reference definition does and widens lf..hf by v |
| Obj2c.ReadSlashPart | tools/obj2c.c:291-301 | one optional `/index` block: 0 when the `/` is absent, else the number minus 1 |
| Obj2c.SkipWord | tools/obj2c.c:302 | chops the line up to its first whitespace |
| Obj2c.SlashPartReads | tools/obj2c.c:291-295 | `/%d` reads back as the 0-based index and stops after it |
| Obj2c.FaceTripleStart | tools/obj2c.c:285-289 | a reference starting with `%d` reads that vertex index minus 1 |
| Obj2c.FaceTripleReadsFull | tools/obj2c.c:281-303 | `v/vt/vn` written 1-based reads back as the 0-based triple |
| Obj2c.FaceTripleReadsPartial | tools/obj2c.c:290-301 | a bare `v` gives vt = vn = 0; in `v//vn` the empty vt reads as -1 |
| Obj2c.EmptySlashPart | tools/obj2c.c:291-295 | `/` followed by no number gives index -1 and consumes only the `/` |
| Obj2c.DelimIndex | dev-deps/sv.h:182-200 | the first occurrence of the delimiter, or the end |
| Obj2c.ChopDelimUnique | dev-deps/sv.h:182-200 | what sv_chop_by_delim promises determines the chunk and rest uniquely |
| Obj2c.AddFace | tools/obj2c.c:439 | the face index is appended to the list of vertex v; the other lists are unchanged |
| Obj2c.ReadFaceVertex | tools/obj2c.c:438-445 | parses one reference and appends the face to its vertex's list; an index that names no vertex, which the source does not check, is reported as VertexOutOfRange |
| Obj2c.ReadFace | tools/obj2c.c:428-447 | the `f` branch: three references, each appended to its vertex, then the face |
| Obj2c.ProcessLine | tools/obj2c.c:403-496 | the loop body for one line computes the reference line step: counts, object line, faces, or the error |
| Obj2c.ParseObj | tools/obj2c.c:402-498 | the line loop over the file, numbered from 1, stops at the first error |
| Obj2c.GrownTrans | tools/obj2c.c:439-445 | successive appends of the same face compose |
| Obj2c.NewFaceKeepsLinked | tools/obj2c.c:436-447 | appending the new face to its vertices' lists and then to the faces keeps faces and lists in agreement |
| Obj2c.AddedFaceKeepsLinked | tools/obj2c.c:439-447 | the three appends and the face append keep every face in the lists of its vertices and every list entry naming a face of that vertex |
| Obj2c.ObjLineKeepsLinked | tools/obj2c.c:403-496 | every successful line keeps faces and per-vertex face lists in agreement |
| Obj2c.NewVertexKeepsLinked | tools/obj2c.c:427 | a new vertex has no faces, so agreement is kept |
| Obj2c.FaceLineKeepsLinked | tools/obj2c.c:428-447 | an `f` line keeps agreement |
| Obj2c.ParseLinesKeepsLinked | tools/obj2c.c:402-498 | whatever the file, a successful read leaves every face in the lists of its vertices and nothing else there |
| Obj2c.ObjLineOutcomes | tools/obj2c.c:403-496 | blank and comment lines change nothing; an unknown kind fails; a second `o` fails with both line numbers; `vt` counts a texcoord |
| Obj2c.IsDeletedFace | tools/obj2c.c:186-197 | true iff some vertex of the face is in a deleted component |
| Obj2c.VisibleLaws | tools/obj2c.c:239-258 | the visible faces are exactly the faces with no deleted vertex, in order; with nothing deleted all faces are visible |
| Obj2c.FloatRows | tools/obj2c.c:208-211 | one row per table entry, in order |
| Obj2c.FaceRows | tools/obj2c.c:251-256 | one `{v, vt, vn}` row per face, in order |
| Obj2c.EmitFloatTable | tools/obj2c.c:203-237 | the count line, then the rows, or the one-element zero array for an empty table |
| Obj2c.CountVisible | tools/obj2c.c:239-244 | the counting loop gives the number of visible faces |
| Obj2c.VisibleStep | tools/obj2c.c:240-243 | one more face considered is kept exactly when it is not deleted |
| Obj2c.EmitFaceRows | tools/obj2c.c:251-256 | the loop writes exactly the rows of the visible faces |
| Obj2c.GenerateCode | tools/obj2c.c:199-260 | the header: guard, three float tables, faces_count and the visible faces |
| Obj2c.FaceTableContents | tools/obj2c.c:246-258 | faces_count is the number of visible faces and the table holds exactly their rows, or one zero row when none |
| Obj2c.FaceTableRows | tools/obj2c.c:250-257 | the rows of a non-empty face table sit between its two header lines and its closing line |
| Obj2cMain.ParseArgs | tools/obj2c.c:327-381 | the argument loop computes exactly the reference parse, with every usage error |
| Obj2cMain.ParseFlags | tools/obj2c.c:327-381 | reference parse: -o once, -s repeatable, -d collected through atoi, one positional input; input and output required; on success an input or output already seen is kept and -d values only grow |
| Obj2cMain.ParseDeleted | tools/obj2c.c:352-360 | a successful parse collects every -d value, in order, as atoi reads it; -d may repeat |
| Obj2cMain.DeletedStep | tools/obj2c.c:360 | a -d value appended first precedes the values that follow it |
| Obj2cMain.ParseExamples | tools/obj2c.c:327-381 | each error path (no input, no output, a flag without a value, -o twice, two inputs) and the last -s winning |
| Obj2cMain.FacesPerVertex | tools/obj2c.c:500-507 | INT_MAX and INT_MIN for no vertices; otherwise the smallest and largest face count, both reached by some vertex |
| Obj2cMain.LinkedInRange | tools/obj2c.c:439-447 | faces that are in their vertices' lists only name existing vertices |
| Obj2cMain.ToolMain | tools/obj2c.c:315-569 | 0 iff the arguments parse, the file reads, every line parses and the output opens; then the components are numbered and the header written; 1 otherwise with nothing written |
| Obj2cComponents.Zeros | tools/obj2c.c:108 | the number of unvisited vertices is at most the number of vertices |
| Obj2cComponents.MaxLabel | tools/obj2c.c:509-540 | the largest component label, bounding all of them |
| Obj2cComponents.CanonicalContiguous | tools/obj2c.c:509-540 | labels handed out in order: the labels before u are exactly 1..max |
| Obj2cComponents.NumberingNext | tools/obj2c.c:510-512 | a vertex with a label not used before it gets the next number |
| Obj2cComponents.NumberingPrefix | tools/obj2c.c:509-540 | two in-order numberings that group the vertices alike agree |
| Obj2cComponents.NumberingUnique | tools/obj2c.c:509-540 | the numbering is determined by the faces: two numberings of the same model are equal, count included |
| Obj2cComponents.ZerosLabel | tools/obj2c.c:527 | labelling an unvisited vertex leaves one fewer unvisited |
| Obj2cComponents.LabelStep | tools/obj2c.c:525-528 | labelling an unvisited neighbour with c and adding it to the next wave keeps the search invariant |
| Obj2cComponents.NeighbourLabel | tools/obj2c.c:524-525 | a neighbour of a waiting vertex that is already labelled carries the current label |
| Obj2cComponents.Release | tools/obj2c.c:520-531 | once every face of v is labelled c, v can leave the wave |
| Obj2cComponents.WitnessStep | tools/obj2c.c:524-528 | a vertex labelled from v is reached by v's walk extended by one face |
| Obj2cComponents.LabelVertex | tools/obj2c.c:524-528 | one labelling keeps the invariant and the walks and lowers the unvisited count by one |
| Obj2cComponents.LabelStart | tools/obj2c.c:510-518 | a new component's start is labelled c, waits in the wave and is its own walk |
| Obj2cComponents.ReversedPath | tools/obj2c.c:519-537 | a walk read backwards is a walk between the same vertices |
| Obj2cComponents.JoinedPath | tools/obj2c.c:519-537 | a walk to x followed by a walk from x is a walk |
| Obj2cComponents.PathKeepsLabel | tools/obj2c.c:519-537 | when every face is settled, a walk never changes label |
| Obj2cComponents.AllUniform | tools/obj2c.c:511-540 | with nothing waiting and nothing unvisited every face carries one label |
| Obj2cComponents.SameLabelConnected | tools/obj2c.c:509-540 | two labelled vertices share a label iff a walk along faces joins them |
| Obj2cComponents.Settled | tools/obj2c.c:509-540 | at the end every label is in 1..n, every label is used, every face is uniform, and equal labels mean connected |
| Obj2cComponents.OrderedStep | tools/obj2c.c:510-539 | starting component c at the first unvisited vertex keeps earlier vertices in earlier components |
| Obj2cComponents.OrderedCanonical | tools/obj2c.c:510-539 | starts taken as the first unvisited vertex number the components in order of their lowest vertex |
| Obj2cComponents.UnvisitedVertex | tools/obj2c.c:305-313 | the first vertex with component 0, or -1 iff every vertex has one |
| Obj2cComponents.VisitVertex | tools/obj2c.c:524-528 | the neighbour ends up labelled c, added to the next wave if it was unvisited; invariant, walks and unvisited count kept in step |
| Obj2cComponents.VisitFace | tools/obj2c.c:523-529 | after the three vertices of a face of v, the face is labelled c |
| Obj2cComponents.VisitNeighbours | tools/obj2c.c:521-530 | after every face of v, v leaves the wave and the newly labelled vertices join the next one |
| Obj2cComponents.SpreadWave | tools/obj2c.c:520-536 | one wave labels exactly the unvisited neighbours, which form the next wave |
| Obj2cComponents.SpreadComponent | tools/obj2c.c:512-537 | component c grows wave by wave until no vertex waits; the unvisited count strictly drops |
| Obj2cComponents.NextComponent | tools/obj2c.c:511-539 | one pass of the outer loop keeps the in-order invariant and strictly lowers the unvisited count |
| Obj2cComponents.LabelComponents | tools/obj2c.c:509-540 | every vertex gets a label 1..count, every label is used, two vertices share a label iff connected, and labels are numbered by lowest vertex |
| Obj2cComponents.LabellingDone | tools/obj2c.c:539-540 | once no vertex is unvisited, the labels are the component numbering |
| ToolCli.ParseArgs | tools/png2c.c:97-149 | the argument loop after the program name computes exactly the reference parse: options on success, the usage error otherwise |
| ToolCli.Parse | tools/png2c.c:105-143 | reference parse: -o and -n at most once each with a value, one positional input, input required; on success what was already seen is kept |
| ToolCli.FlagValueInSuffix | tools/png2c.c:105-120 | a flag-value pair in the arguments still to be read is a pair of the whole argument list |
| ToolCli.ParseResultFromArgs | tools/png2c.c:105-143 | a successful parse returns an input path that is an argument and not a flag, and an output path or name that follows its flag |
| ToolCli.ParseErrors | tools/png2c.c:108-148 | each error path: no input, a flag without a value, -o or -n given twice, a second input path |
| ToolCli.CheckName | tools/png2c.c:153-170 | accepted iff the name is valid; the empty name and a leading digit get their own errors, checked in that order |
| ToolCli.ResolveName | tools/png2c.c:151-171 | the default when -n is absent, otherwise the given name when valid and an error when not |
| ToolCli.DefaultNamesValid | tools/png2c.c:152 | the defaults "png" and "font" are themselves valid names |
| Png2c.UpperCase | tools/png2c.c:34-40 | the include-guard name is the name with `toupper` applied to each character |
| Png2c.UpperCaseKeepsName | tools/png2c.c:37-43 | upper-casing keeps a valid name valid and leaves no lower-case letter |
| Png2c.ChunksLaws | tools/png2c.c:47-55 | the lines of 7 pixels lose and reorder nothing, number ceil(n/7), and only the last may be shorter |
| Png2c.GenerateCode | tools/png2c.c:32-61 | the output is exactly the guard, the width and height, the pixel lines and the footer |
| Png2c.EmitBody | tools/png2c.c:49-55 | the line loop writes the text of every 7-pixel line in order |
| Png2c.LineStart | tools/png2c.c:49-51 | every line the loop reaches starts at an existing pixel |
| Png2c.LinesCover | tools/png2c.c:49 | ceil(n/7) lines of 7 cover all the pixels |
| Png2c.EmitLine | tools/png2c.c:50-54 | one line: the literals of the pixels i*7 .. i*7+6 that exist, then the rest of the body |
| Png2c.NextLine | tools/png2c.c:51-54 | the body from a pixel on is its first line followed by the body after that line |
| Png2c.GenerateFile | tools/png2c.c:63-95 | fails iff the image does not load or the output cannot be opened, emitting nothing; else the code goes to the file or to stdout |
| Png2c.ToolMain | tools/png2c.c:97-176 | status 0 iff the arguments parse, the name is valid, the image loads and the output opens; then the code for the image and name (default "png") is emitted; 1 otherwise with nothing emitted on a parse error |
| Font2c.MaxAscender | tools/font2c.c:24-37 | the running maximum of bitmap_top starts at 0 and never goes below it |
| Font2c.MaxDescender | tools/font2c.c:25-41 | the running maximum of rows - bitmap_top starts at 0 and never goes below it |
| Font2c.MaximaBound | tools/font2c.c:28-45 | every loaded glyph is within the three maxima, and a positive maximum is reached by some loaded glyph |
| Font2c.DetermineBitmapSizes | tools/font2c.c:14-50 | the loop over the glyphs gives baseline = max ascender, height = max ascender + max descender, width = max width, skipping glyphs that fail to load |
| Font2c.SkipLines | tools/font2c.c:62-64 | baseline - bitmap_top, clamped below at 0 |
| Font2c.Pixel | tools/font2c.c:80 | a bitmap byte is written as 1 when nonzero and 0 otherwise |
| Font2c.Cell | tools/font2c.c:70-81 | every grid cell is 0 or 1 |
| Font2c.BufferIndex | tools/font2c.c:80 | `width*(y - skip) + x` indexes inside the bitmap buffer |
| Font2c.Grid | tools/font2c.c:68-84 | the grid has `height` rows, row y being the cells of the glyph placed skip_lines rows down |
| Font2c.GridRow | tools/font2c.c:69-83 | a grid row has `width` cells |
| Font2c.GlyphNotClipped | tools/font2c.c:14-84 | with the sizes of determine_bitmap_sizes no loaded glyph is clipped: its whole bitmap appears in the grid skip_lines rows down |
| Font2c.GlyphFits | tools/font2c.c:62-81 | a glyph within the maxima lands entirely inside the grid, bit for bit |
| Font2c.WriteGlyph | tools/font2c.c:52-86 | nothing for a glyph that fails to load; otherwise the `[c] = { // 'c'` entry with the rows of its grid |
| Font2c.WriteRows | tools/font2c.c:68-84 | the row loop writes the text of the grid's rows, top to bottom |
| Font2c.WriteRow | tools/font2c.c:69-83 | one row: `{`, its cells, `},` |
| Font2c.WriteCells | tools/font2c.c:70-82 | the cell loops write `0, ` or `1, ` for every column of the row |
| Font2c.ReadCell | tools/font2c.c:70-80 | 0 outside the glyph's rows or right of its width, else the bitmap bit |
| Font2c.CellsStep | tools/font2c.c:75-81 | one more column appends that cell's text |
| Font2c.EntriesSnoc | tools/font2c.c:133-135 | one more character appends its entry |
| Font2c.WriteEntries | tools/font2c.c:133-135 | the loop over FROM_CHAR..TO_CHAR-1 writes every glyph's entry in order |
| Font2c.GenerateFile | tools/font2c.c:88-152 | 1 when FreeType cannot start or read the font; -1 when the output file cannot be opened; 0 otherwise with the whole file to the output or stdout |
| Font2c.ToolMain | tools/font2c.c:172-250 | 1 on an argument or name error with nothing emitted; otherwise the status of generation; 0 iff everything succeeds, and then the file for the name (default "font") is emitted |
| TestHarness.HexChar | test.c:40-45 | the upper-case hex digit whose value is the nibble |
| TestHarness.DisplayHexColor | test.c:47-61 | nine characters, '#' and then each of the four colour bytes in memory order as two hex digits, high nibble first |
| TestHarness.NibblePairs | test.c:51-58 | nibbles 2b+1 and 2b of a colour make up its byte b |
| TestHarness.NibblePair | test.c:51-58 | the high and low nibble of byte b make up that byte |
| TestHarness.ByteDigits | test.c:51-58 | two adjacent hex digits of a number make up the byte at that position |
| TestHarness.DisplayHexColorRoundTrip | test.c:47-61 | the displayed text reads back as the same colour |
| TestHarness.Diff | test.c:107-118 | the diff image has one pixel per pixel: ERROR_COLOR where the images disagree, the shared pixel otherwise |
| TestHarness.DiffMarks | test.c:107-118 | every mismatch is marked; an unmarked pixel is one both images share; equal images diff to themselves |
| TestHarness.ComparePixels | test.c:106-118 | the diff buffer holds Diff of the two images, and `failed` holds iff the images differ |
| TestHarness.ReplayTestCase | test.c:82-145 | ERRORED when the expected image is missing or a write fails, FAILED on a size or pixel mismatch, PASSED otherwise; the diff is filled when the sizes match |
| TestHarness.DefineTestCase | test.c:154-160 | the three image paths are the test directory, the case name and the three suffixes |
| TestHarness.TestMain | test.c:248-263 | returns 0 iff no case is fatal (a failed write when recording, an ERRORED replay otherwise), else 1 right after the first fatal case |
| TermScale.Mask | examples/3d.c:196 | `x & 0xFF` leaves a byte-sized value unchanged |
| TermScale.Rgba | examples/3d.c:196 | the packed colour's bytes are the four arguments, each masked to a byte, red lowest |
| TermScale.RgbaOfChannels | examples/3d.c:192-196 | packing a colour's four extracted channels gives the colour back |
| TermScale.ChannelsOfRgba | examples/3d.c:192-196 | the channel extractors give back the bytes packed |
| TermScale.Brightness | demos/vc.c:94-101 | at most 255; the largest colour channel in the examples, scaled down by alpha in the demo |
| TermScale.ColorToChar | demos/vc.c:92-106 | always a character of the ramp " .:a@#" |
| TermScale.ColorToCharLaws | examples/3d.c:179-190 | transparent pixels are blank in the demo, opaque ones agree with the examples, black is blank, white is '#' |
| TermScale.ColorToCharMonotone | demos/vc.c:98-105 | a brighter pixel never gets a darker ramp character |
| TermScale.RowSum | demos/vc.c:116-121 | a row's channel sum is at most 255 per pixel |
| TermScale.BlockSumBound | demos/vc.c:115-122 | a block's channel sum is at most 255 per pixel |
| TermScale.Mean | demos/vc.c:124-127 | the per-channel floor mean fits in a byte |
| TermScale.ChunkColor | demos/vc.c:124-129 | each channel of the chunk colour is that channel's floor mean over the window |
| TermScale.CompressPixelsChunk | examples/3d.c:198-220 | returns the chunk colour: per-channel floor means of the window |
| TermScale.SumBlock | demos/vc.c:115-122 | the four accumulators are the channel sums over every row |
| TermScale.SumRow | demos/vc.c:116-121 | the four accumulators are the channel sums of one row |
| TermScale.UniformMean | demos/vc.c:108-130 | a window of one repeated pixel averages to that pixel's channel |
| TermScale.UniformBlock | demos/vc.c:115-122 | a block of uniform rows sums to rows x width x channel |
| TermScale.BlockFits | demos/vc.c:85-88 | with the factor dividing both sides, every cell's block lies in the buffer |
| TermScale.RowCells | demos/vc.c:136-140 | one character per cell of the row, each the character of its block |
| TermScale.Compressed | demos/vc.c:135-141 | SCALED_DOWN_WIDTH characters per scaled-down row |
| TermScale.CompressedAt | demos/vc.c:139 | cell (x, y) sits at y*SCALED_DOWN_WIDTH + x and is the character of its block |
| TermScale.CompressPixels | examples/triangle.c:213-223 | the character canvas holds every cell's character, row after row |
| TermScale.CompressRow | demos/vc.c:136-140 | after row y the canvas holds rows 0..y of the scaled-down picture |
| TermScale.RowText | demos/vc.c:149-152 | a printed row repeats each cell character twice, in order |
| TermScale.FrameText | demos/vc.c:148-154 | every printed row is two characters per cell and a newline |
| TermScale.FrameLayout | examples/3d.c:238-244 | printed row y has cell (x, y) at columns 2x and 2x+1 and ends with a newline |
| TermScale.FrameTextStep | demos/vc.c:148-154 | printing one more row appends its text and a newline |
| TermScale.PrintFrame | examples/triangle.c:229-235 | the frame written is the character canvas laid out row by row |
| TermScale.PrintRow | demos/vc.c:149-152 | one row's output is each cell twice |
| TermScale.ExampleDimensions | examples/3d.c:172-175 | the examples' 800x600 canvas with factor 40 meets the static asserts and gives 20 x 15 cells |
| TermScale.GridColor | examples/3d.c:72-75 | the grid colour is opaque with channels ix, iy, iz scaled by 255/GRID_COUNT |
| Bridge.LookupFirstOwner | js/vc.js:2-13 | the first table, in argument order, that owns the name supplies the import |
| Bridge.LookupNoOwner | js/vc.js:10 | a name no table owns resolves to the NOT IMPLEMENTED stub for that name |
| Bridge.Lookup | js/vc.js:4-11 | make_environment's trap: a found value belongs to some table that owns the name; the stub, named after the import, only when no table owns it |
| Bridge.Resolve | index.js:3-14 | the trap's loop, the same in index.js and js/vc.js, returns what the first-owner lookup specifies |
| Bridge.EnvNames | js/vc.js:15-20 | exactly atan2f, cosf, sinf and sqrtf resolve, to the matching Math function; all else is a stub |
| Bridge.WordBytes | js/vc.js:33 | a word occupies four bytes of memory |
| Bridge.EncodeCanvas | js/vc.js:22-29 | the canvas descriptor occupies CANVAS_SIZE words |
| Bridge.WordOfBytes | js/vc.js:33-38 | a word reads back as the value whose little-endian bytes were stored |
| Bridge.ReadEncoded | js/vc.js:31-40 | reading a descriptor stored at an aligned pointer gives back pixels, width, height and stride |
| Bridge.ReadCanvasFails | js/vc.js:33 | the read fails exactly when the pointer is misaligned or the four words run past memory |
| Bridge.ReadCanvas | js/vc.js:31-40 | readCanvasFromMemory: a descriptor only from an aligned pointer whose four words lie in memory; Misaligned exactly for an unaligned pointer |
| Bridge.Image | js/vc.js:75 | an image made from memory has the requested size and width*height*4 bytes |
| Bridge.DemoFrameShowsCanvas | js/vc.js:66-79 | a stored canvas with width equal to stride is shown as exactly its width*height*4 pixel bytes |
| Bridge.DemoFrameStride | js/vc.js:70-74 | a canvas whose width differs from its stride is not drawn; the error names both |
| Bridge.DemoFrame | js/vc.js:66-79 | render after vc_render: a shown frame is a non-empty width x height image of width*height*4 bytes; a stride mismatch names differing values; anything but a throw comes from a readable descriptor |
| Bridge.DetachedSnapshot | js/vc.js:67-69 | without memory growth the early buffer gives the same frame; with growth a frame that would show throws |
| Bridge.Demo.constructor | js/vc.js:54-56 | a new demo starts paused, with no timestamp, nothing drawn and `first` scheduled |
| Bridge.Demo.MouseEnter | js/vc.js:55 | unpauses and changes nothing else |
| Bridge.Demo.MouseLeave | js/vc.js:56 | pauses and changes nothing else |
| Bridge.Demo.RenderFrame | js/vc.js:66-79 | logs the vc_render call and the events of the frame read from the memory after it; the display becomes the shown canvas, and is unchanged otherwise |
| Bridge.Demo.OnFirst | js/vc.js:82-86 | records the timestamp as the start, renders with dt 0 even while paused, shows the canvas if the frame has one, and schedules `loop` unless the render threw |
| Bridge.Demo.OnLoop | js/vc.js:87-92 | dt is the time since the previous callback; a paused demo only records it and keeps its display, an unpaused one renders and shows the frame's canvas, and `loop` is rescheduled unless the render threw |
| Bridge.StartDemo | js/vc.js:42-56 | a missing `app-` or `sec-` element is logged, in that order, and skips the demo; otherwise a paused demo waiting for its first frame |
| Bridge.Blank | index.js:30-31 | a freshly sized 800x600 surface is transparent black |
| Bridge.Example.constructor | index.js:30-55 | the surface is 800x600 and blank, init has been called, `first` is scheduled |
| Bridge.Example.OnFirst | index.js:40-43 | only records the timestamp and schedules `loop` |
| Bridge.Example.OnLoop | index.js:44-54 | dt is the time since the previous callback; render's pixels are blitted and `loop` rescheduled, or the callback throws |
| Bridge.StartExample | index.js:23-28 | a missing element is logged and skips the example; otherwise an example after init |
| Bridge.SumDifferences | index.js:44-48 | the dts handed to render add up to the last timestamp minus the first |
| Bridge.Differences | js/vc.js:87-89 | each dt is the difference of consecutive timestamps |

## Left out

- Floating point: the 3D projection, rotation and `sinf`/`cosf`/`atan2f` of the demos and examples, and `strtof` in `tools/obj2c.c`; vertex, texture and normal tables are emitted as rows that name their table and index.
- `remap_object` and the range summary that `tools/obj2c.c` prints to stdout, because both work on floats.
- Reading and writing files: `read_entire_file`, `fopen` and `fprintf` become parameters (the file's contents, whether it opens) and a returned output text.
- stb_image, stb_image_write and FreeType: a decoded image, a write's success and each glyph's bitmap are inputs.
- The `Olivec_Canvas` functions that `test.c` and the demos call but `olive.c` here does not define (`olivec_canvas`, `olivec_rect`, `olivec_circle`, `olivec_line`, `olivec_triangle`, `olivec_clear`, `olivec_subcanvas`): the test cases' drawings are inputs, and a sub-canvas is a window (offset, width, height, stride) of the buffer.
- The SDL main loops, `usleep` and the terminal escape sequences that move the cursor back between frames.
- The browser: the DOM, `fetch`, `console` and `requestAnimationFrame` are modelled as recorded events; `await` and the module's instantiation are a single step.
- Bridge.Demo.RenderFrame: the `dt*0.001` conversion to seconds is not modelled; the log records dt in milliseconds.
- Bridge.Demo.RenderFrame: assumes vc_render does not grow memory: it reads the memory as it is after vc_render (Bridge.DemoFrame), where js/vc.js:67-68 reads a buffer taken before it, which throws after a grow (Bridge.DemoFrameAsWritten, see Findings).
- Bridge.Example.OnLoop: the pixel offset `render` returns is a parameter, since the module's code is not part of this model, and dt is logged in milliseconds without the `dt*0.001` conversion.
- Bridge.Demo.OnLoop: dt is logged in milliseconds without the `dt*0.001` conversion.
- The `NOT IMPLEMENTED` stub's console output: the stub is modelled by the name it reports.
- `malloc`/`realloc` failure: the PANIC paths of `nobuild.h` and the allocation checks of `tools/obj2c.c` are not modelled; allocation always succeeds.
- `sv_from_parts`, `sv_from_cstr` and their `nob_sv_*` twins: a view is the sequence of characters it covers, so building one is the identity.
- The process, file-system and logging functions of `dev-deps/nob.h` and `nobuild.h` (`nob_cmd_run_*`, `chain_run_sync`, `chain_echo`, `nob_mkdir_if_not_exists`, `nob_read_entire_file`, `nob_log` and the rest), and the `nob.c` and `nobuild.c` build scripts.
- Usage and error messages: a failed run is modelled by its exit status and the error it reports, not by the text printed.
- Obj2c.ReadFaceVertex: a face index that names no vertex (`f 5 1 2` with three vertices, or `f 0 1 2`, which becomes -1) is undefined behaviour in tools/obj2c.c:438-445, which indexes the vertex list without a range check; the model reports VertexOutOfRange instead, so Obj2c.ParseObj and Obj2cMain.ToolMain return that error and status 1 on such a file.
- Coordinates, sizes and the products olive.c forms from them (`x + sign(w)*(|w|-1)` at olive.c:38-40, the squares of olive.c:129, the slope products of olive.c:146-153) are mathematical integers: C's signed `int` overflow is undefined and not modelled, and the canvas width and height are assumed to fit in `int` for the `(int)` casts of olive.c:44-53.
- Obj2cMain.ParseDeleted: `atoi` is modelled as `strtol` without the overflow of C's `int`.
- Obj2c.StrToL: values beyond the range of `long` are not clamped.
- TestHarness.HexChar: requires a nibble; the `UNREACHABLE` exit for larger arguments is not modelled because every caller masks with 0xF.
- `fonts/olivec_5x5_font.c`, `example.c`, `examples/gallery.c` and the root `png2c.c`: static data and drivers of fixed scenes.

## Findings

| source | as written | input that shows it | evidently intended | confidence | as-written member | corrected member |
|---|---|---|---|---|---|---|
| dev-deps/sv.h:202-226 | the search loop stops before comparing the last position where the delimiter fits and then adds those final characters to the chunk, so a delimiter that ends the view is never found; a delimiter longer than the view makes the unsigned count wrap | "ab," chopped by "," gives the chunk "ab," instead of "ab" | the first occurrence anywhere in the view is found and a longer delimiter is simply absent | not executed | Sv.ChopBySvAsWritten, Sv.ChopBySvMissesFinalDelimiter, Sv.ChopBySvShortViewWraps | Sv.ChopBySv |
| js/vc.js:66-69 | `render` takes `memory.buffer` before calling `vc_render`; if the module grows its memory during the call that buffer is detached and reading the canvas descriptor throws | a `vc_render` that grows memory by one page while drawing a 1x1 canvas | read the buffer after `vc_render` returns, as `index.js` does | not executed | Bridge.DemoFrameAsWritten, Bridge.DetachedSnapshot | Bridge.DemoFrame, Bridge.DemoFrameShowsCanvas |
