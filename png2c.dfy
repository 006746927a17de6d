/** tools/png2c.c: turns a decoded RGBA image into a C header declaring
    `<name>_width`, `<name>_height` and `<name>_pixels`. Image decoding
    (stb_image) and the file system are inputs of the model. */
module Png2c {
  import opened CTypes
  import Printf
  import ToolCli

  /** Pixels per emitted line. */
  const LINE_WIDTH: nat := 7

  /** What stbi_load returns: the size and the pixels as RGBA words. */
  datatype Image = Image(x: int, y: int, data: seq<u32>)

  /** Where the generated code goes. */
  datatype Emitted = Nothing | ToFile(path: seq<char>, text: seq<char>) | ToStdout(text: seq<char>)

  /** The upper-cased copy of the name used in the include guard. */
  method UpperCase(name: seq<char>) returns (r: seq<char>)
    ensures |r| == |name| && forall i :: 0 <= i < |name| ==> r[i] == ToUpper(name[i])
  {
    r := [];
    var i := 0;
    while i < |name|
      invariant 0 <= i <= |name|
      invariant |r| == i && forall k :: 0 <= k < i ==> r[k] == ToUpper(name[k])
    {
      r := r + [ToUpper(name[i])];
      i := i + 1;
    }
  }

  /** Upper-casing keeps a valid name valid and leaves no lower-case
      letter. */
  lemma UpperCaseKeepsName(name: seq<char>, upper: seq<char>)
    requires |upper| == |name| && forall i :: 0 <= i < |name| ==> upper[i] == ToUpper(name[i])
    ensures ToolCli.ValidName(name) ==> ToolCli.ValidName(upper)
    ensures forall i :: 0 <= i < |upper| ==> !('a' <= upper[i] <= 'z')
  {
  }

  /** The pixels in lines of LINE_WIDTH, the last one possibly shorter. */
  function Chunks(data: seq<u32>): seq<seq<u32>>
    decreases |data|
  {
    if data == [] then []
    else if |data| <= LINE_WIDTH then [data]
    else [data[..LINE_WIDTH]] + Chunks(data[LINE_WIDTH..])
  }

  function Flatten(chunks: seq<seq<u32>>): seq<u32> {
    if chunks == [] then [] else chunks[0] + Flatten(chunks[1..])
  }

  /** Chunking loses and reorders nothing, gives ceil(n/7) lines, and puts
      between 1 and 7 pixels on each, exactly 7 on all but the last. */
  lemma {:induction false} ChunksLaws(data: seq<u32>)
    ensures Flatten(Chunks(data)) == data
    ensures |Chunks(data)| == (|data| + LINE_WIDTH - 1) / LINE_WIDTH
    ensures forall i :: 0 <= i < |Chunks(data)| ==> 0 < |Chunks(data)[i]| <= LINE_WIDTH
    ensures forall i :: 0 <= i < |Chunks(data)| - 1 ==> |Chunks(data)[i]| == LINE_WIDTH
    decreases |data|
  {
    if |data| > LINE_WIDTH {
      ChunksLaws(data[LINE_WIDTH..]);
      assert data == data[..LINE_WIDTH] + data[LINE_WIDTH..];
      var c := Chunks(data);
      assert c[1..] == Chunks(data[LINE_WIDTH..]);
      assert forall i :: 1 <= i < |c| ==> c[i] == c[1..][i - 1];
    }
  }

  /** `0x%08X,` */
  function Literal(p: u32): seq<char> {
    "0x" + Printf.Hex08(p) + ","
  }

  function Literals(ps: seq<u32>): seq<char> {
    if ps == [] then [] else Literals(ps[..|ps| - 1]) + Literal(ps[|ps| - 1])
  }

  /** One line: three spaces, the literals, a newline. */
  function LineText(ps: seq<u32>): seq<char> {
    "   " + Literals(ps) + "\n"
  }

  function Body(chunks: seq<seq<u32>>): seq<char> {
    if chunks == [] then [] else LineText(chunks[0]) + Body(chunks[1..])
  }

  function Header(name: seq<char>, upper: seq<char>, x: int, y: int): seq<char> {
    "#ifndef " + upper + "_H_\n" +
    "#define " + upper + "_H_\n" +
    "size_t " + name + "_width = " + Printf.SignedDecimal(x) + ";\n" +
    "size_t " + name + "_height = " + Printf.SignedDecimal(y) + ";\n" +
    "uint32_t " + name + "_pixels[] = {\n"
  }

  function Footer(upper: seq<char>): seq<char> {
    "};\n" + "#endif // " + upper + "_H_\n"
  }

  /** The whole header file for an image and a name. */
  function CCode(data: seq<u32>, x: int, y: int, name: seq<char>): seq<char> {
    var upper := seq(|name|, i requires 0 <= i < |name| => ToUpper(name[i]));
    Header(name, upper, x, y) + Body(Chunks(data)) + Footer(upper)
  }

  /** generate_c_code_from_pixels: the include guard on the upper-cased
      name, the size declarations, then the x*y pixels seven to a line. */
  method GenerateCode(data: seq<u32>, x: int, y: int, name: seq<char>) returns (out: seq<char>)
    requires x >= 0 && y >= 0 && |data| == x * y
    ensures out == CCode(data, x, y, name)
  {
    var upper := UpperCase(name);
    assert upper == seq(|name|, i requires 0 <= i < |name| => ToUpper(name[i]));
    var body := EmitBody(data);
    out := Header(name, upper, x, y) + body + Footer(upper);
  }

  /** The line loop of generate_c_code_from_pixels. */
  method EmitBody(data: seq<u32>) returns (out: seq<char>)
    ensures out == Body(Chunks(data))
  {
    out := [];
    var length := |data|;
    var i := 0;
    while i < (length + LINE_WIDTH - 1) / LINE_WIDTH
      invariant 0 <= i <= (length + LINE_WIDTH - 1) / LINE_WIDTH
      invariant out + Body(Chunks(data[Min(i * LINE_WIDTH, length)..])) == Body(Chunks(data))
    {
      var line := EmitLine(data, i);
      LineStart(i, length);
      assert Min(i * LINE_WIDTH, length) == i * LINE_WIDTH;
      out := out + line;
      i := i + 1;
    }
    LinesCover(length);
    assert data[Min(i * LINE_WIDTH, length)..] == [];
  }

  /** A line the loop reaches starts at an existing pixel. */
  lemma LineStart(i: nat, length: nat)
    requires i < (length + LINE_WIDTH - 1) / LINE_WIDTH
    ensures i * LINE_WIDTH < length
  {
  }

  /** The loop's lines cover all the pixels. */
  lemma LinesCover(length: nat)
    ensures (length + LINE_WIDTH - 1) / LINE_WIDTH * LINE_WIDTH >= length
  {
  }

  /** One iteration of the line loop: the pixels i*7 .. i*7+6 that exist. */
  method EmitLine(data: seq<u32>, i: nat) returns (line: seq<char>)
    requires i < (|data| + LINE_WIDTH - 1) / LINE_WIDTH
    ensures Body(Chunks(data[i * LINE_WIDTH..])) == line + Body(Chunks(data[Min((i + 1) * LINE_WIDTH, |data|)..]))
  {
    var start := i * LINE_WIDTH;
    line := "   ";
    var j := 0;
    while j < LINE_WIDTH && start + j < |data|
      invariant 0 <= j <= LINE_WIDTH && start + j <= |data|
      invariant line == "   " + Literals(data[start..start + j])
    {
      assert data[start..start + j + 1][..j] == data[start..start + j];
      line := line + Literal(data[start + j]);
      j := j + 1;
    }
    line := line + "\n";
    NextLine(data, start, j);
  }

  /** The first line of the pixels from `start` on, and the lines after it. */
  lemma NextLine(data: seq<u32>, start: nat, j: nat)
    requires start < |data| && 0 < j <= LINE_WIDTH && start + j <= |data|
    requires j == LINE_WIDTH || start + j == |data|
    ensures Body(Chunks(data[start..])) == LineText(data[start..start + j]) + Body(Chunks(data[Min(start + LINE_WIDTH, |data|)..]))
  {
    var rest := data[start..];
    if |rest| <= LINE_WIDTH {
      assert rest == data[start..start + j];
      assert data[Min(start + LINE_WIDTH, |data|)..] == [];
    } else {
      assert rest[..LINE_WIDTH] == data[start..start + j];
      assert rest[LINE_WIDTH..] == data[Min(start + LINE_WIDTH, |data|)..];
    }
  }

  /** generate_c_file_from_png: fails when the image cannot be loaded or
      the output file cannot be opened; otherwise writes the code to the
      file, or to stdout when no output path is given. */
  method GenerateFile(image: Option<Image>, output: Option<seq<char>>, canOpen: bool, name: seq<char>)
    returns (ok: bool, emitted: Emitted)
    requires image.Some? ==> image.value.x >= 0 && image.value.y >= 0 && |image.value.data| == image.value.x * image.value.y
    ensures ok <==> image.Some? && (output.None? || canOpen)
    ensures !ok ==> emitted == Nothing
    ensures ok && output.Some? ==> emitted == ToFile(output.value, CCode(image.value.data, image.value.x, image.value.y, name))
    ensures ok && output.None? ==> emitted == ToStdout(CCode(image.value.data, image.value.x, image.value.y, name))
  {
    if image.None? {
      return false, Nothing;
    }
    var img := image.value;
    if output.Some? {
      if !canOpen {
        return false, Nothing;
      }
      var text := GenerateCode(img.data, img.x, img.y, name);
      return true, ToFile(output.value, text);
    }
    var text := GenerateCode(img.data, img.x, img.y, name);
    return true, ToStdout(text);
  }

  /** main: the argument loop, the name check (default "png"), then
      generation; 0 on success and 1 on every failure. `load` is what
      stbi_load gives for the input path, `canOpen` whether fopen of the
      output path succeeds. */
  method ToolMain(argv: seq<seq<char>>, load: Option<Image>, canOpen: bool) returns (status: int, emitted: Emitted)
    requires |argv| > 0
    requires load.Some? ==> load.value.x >= 0 && load.value.y >= 0 && |load.value.data| == load.value.x * load.value.y
    ensures status == 0 || status == 1
    ensures ToolCli.Parse(argv[1..], None, None, None).Err? ==> status == 1 && emitted == Nothing
    ensures status == 0 <==>
      var p := ToolCli.Parse(argv[1..], None, None, None);
      p.Ok? && (p.value.name.None? || ToolCli.ValidName(p.value.name.value)) &&
      load.Some? && (p.value.output.None? || canOpen)
    ensures status == 0 ==>
      var o := ToolCli.Parse(argv[1..], None, None, None).value;
      var text := CCode(load.value.data, load.value.x, load.value.y, if o.name.Some? then o.name.value else "png");
      emitted == (if o.output.Some? then ToFile(o.output.value, text) else ToStdout(text))
  {
    var parsed := ToolCli.ParseArgs(argv);
    if parsed.Err? {
      return 1, Nothing;
    }
    var opts := parsed.value;
    var name := ToolCli.ResolveName(opts.name, "png");
    if name.Err? {
      return 1, Nothing;
    }
    var ok;
    ok, emitted := GenerateFile(load, opts.output, canOpen, name.value);
    status := if ok then 0 else 1;
  }
}
