/** The regression harness of test.c: each test case renders into a
    WIDTH x HEIGHT buffer, and the harness either records the buffer as the
    expected image or replays it against the recorded one, writing the
    actual image and a diff when they differ. Rendering (through the canvas
    functions), image loading and image writing are inputs of the model. */
module TestHarness {
  import opened CTypes
  import Olive
  import Printf

  const WIDTH: nat := 128
  const HEIGHT: nat := 128
  const ERROR_COLOR: u32 := 0xFFFF00FF
  const TEST_DIR_PATH: seq<char> := "./test"

  // ---------------------------------------------------------------------
  // Colours as text

  /** hexchar: the upper-case digit of a nibble. Every caller masks its
      argument with 0xF. */
  function HexChar(x: nat): (c: char)
    requires x < 16
    ensures Printf.HexValue(c) == x
    ensures ('0' <= c <= '9') || ('A' <= c <= 'F')
  {
    if x < 10 then (x + '0' as int) as char else (x - 10 + 'A' as int) as char
  }

  /** `(c >> (k*4)) & 0xF` */
  function Nibble(c: u32, k: nat): nat {
    (c / Printf.Pow16(k)) % 16
  }

  /** display_hexcolor: '#' and then the bytes of the colour from the
      least significant (red) up, each written high nibble first. */
  function DisplayHexColor(c: u32): (s: seq<char>)
    ensures |s| == 9 && s[0] == '#'
    ensures forall b :: 0 <= b < 4 ==>
      Printf.HexValue(s[1 + 2 * b]) * 16 + Printf.HexValue(s[2 + 2 * b]) == Olive.Unpack(c)[b]
  {
    NibblePairs(c);
    ['#',
     HexChar(Nibble(c, 1)), HexChar(Nibble(c, 0)),
     HexChar(Nibble(c, 3)), HexChar(Nibble(c, 2)),
     HexChar(Nibble(c, 5)), HexChar(Nibble(c, 4)),
     HexChar(Nibble(c, 7)), HexChar(Nibble(c, 6))]
  }

  /** Nibbles 2b+1 and 2b of a colour make up its byte b. */
  lemma NibblePairs(c: u32)
    ensures forall b :: 0 <= b < 4 ==> Nibble(c, 2 * b + 1) * 16 + Nibble(c, 2 * b) == Olive.Unpack(c)[b]
  {
    NibblePair(c, 0);
    NibblePair(c, 1);
    NibblePair(c, 2);
    NibblePair(c, 3);
  }

  lemma NibblePair(c: u32, b: nat)
    requires b < 4
    ensures Nibble(c, 2 * b + 1) * 16 + Nibble(c, 2 * b) == Olive.Unpack(c)[b]
  {
    PowersOfSixteen();
    var p := Printf.Pow16(2 * b);
    assert Printf.Pow16(2 * b + 1) == 16 * p;
    ByteDigits(c, p);
    if b == 3 {
      assert c / 0x100_0000 < 0x100;
    }
  }

  lemma PowersOfSixteen()
    ensures Printf.Pow16(0) == 1 && Printf.Pow16(1) == 0x10 && Printf.Pow16(2) == 0x100
    ensures Printf.Pow16(3) == 0x1000 && Printf.Pow16(4) == 0x1_0000 && Printf.Pow16(5) == 0x10_0000
    ensures Printf.Pow16(6) == 0x100_0000 && Printf.Pow16(7) == 0x1000_0000
  {
  }

  /** The two nibbles above position p make up the byte there. */
  lemma ByteDigits(c: nat, p: nat)
    requires p >= 1
    ensures (c / (16 * p)) % 16 * 16 + (c / p) % 16 == (c / p) % 0x100
  {
    DivDiv(c, p, 16);
    assert p * 16 == 16 * p;
    Printf.ModSixteen(c / p, 16);
  }

  /** The byte written as the b-th pair of digits of a `#RRGGBBAA` string. */
  function HexByte(s: seq<char>, b: nat): nat
    requires 2 + 2 * b < |s|
  {
    Printf.HexValue(s[1 + 2 * b]) * 16 + Printf.HexValue(s[2 + 2 * b])
  }

  /** The colour a `#RRGGBBAA` string stands for. */
  function HexColorValue(s: seq<char>): nat
    requires |s| == 9
  {
    HexByte(s, 0) + HexByte(s, 1) * 0x100 + HexByte(s, 2) * 0x1_0000 + HexByte(s, 3) * 0x100_0000
  }

  /** The displayed colour reads back as the colour. */
  lemma DisplayHexColorRoundTrip(c: u32)
    ensures HexColorValue(DisplayHexColor(c)) == c
  {
    var s := DisplayHexColor(c);
    var u := Olive.Unpack(c);
    assert HexByte(s, 0) == u[0] && HexByte(s, 1) == u[1] && HexByte(s, 2) == u[2] && HexByte(s, 3) == u[3];
    assert HexColorValue(s) == Olive.Pack(u);
    Olive.PackUnpack(c);
  }

  // ---------------------------------------------------------------------
  // Replaying a test case

  /** The diff image's pixel: ERROR_COLOR where the images disagree, the
      expected pixel where they agree. */
  function DiffPixel(expected: u32, actual: u32): u32 {
    if expected != actual then ERROR_COLOR else expected
  }

  /** The diff image of two equally long pixel buffers. */
  function Diff(expected: seq<u32>, actual: seq<u32>): (d: seq<u32>)
    requires |expected| == |actual|
    ensures |d| == |expected|
    ensures forall i :: 0 <= i < |d| ==> d[i] == DiffPixel(expected[i], actual[i])
  {
    if expected == [] then []
    else Diff(expected[..|expected| - 1], actual[..|actual| - 1]) + [DiffPixel(expected[|expected| - 1], actual[|actual| - 1])]
  }

  /** The diff marks every mismatch, shows only agreeing pixels otherwise,
      and is the image itself when nothing differs. */
  lemma DiffMarks(expected: seq<u32>, actual: seq<u32>)
    requires |expected| == |actual|
    ensures forall i :: 0 <= i < |expected| && expected[i] != actual[i] ==> Diff(expected, actual)[i] == ERROR_COLOR
    ensures forall i :: 0 <= i < |expected| && Diff(expected, actual)[i] != ERROR_COLOR ==>
      expected[i] == actual[i] == Diff(expected, actual)[i]
    ensures expected == actual ==> Diff(expected, actual) == actual
  {
  }

  /** A decoded image as stbi_load returns it with four channels. */
  datatype Image = Image(width: int, height: int, pixels: seq<u32>)

  predicate WellFormed(img: Image) {
    img.width >= 0 && img.height >= 0 && |img.pixels| == img.width * img.height
  }

  datatype ReplayResult = Passed | Failed | Errored

  /** What the file system does for one test case: the expected image if
      it can be loaded, and whether each image write succeeds. */
  datatype CaseWorld = CaseWorld(
    actual: seq<u32>,
    expected: Option<Image>,
    writeExpectedOk: bool,
    writeActualOk: bool,
    writeDiffOk: bool)

  predicate ValidWorld(w: CaseWorld) {
    |w.actual| == WIDTH * HEIGHT && (w.expected.Some? ==> WellFormed(w.expected.value))
  }

  /** The outcome of a replay: ERRORED when the expected image cannot be
      loaded or an image of a failure cannot be written, FAILED on a size
      mismatch or differing pixels, PASSED otherwise. */
  function Verdict(w: CaseWorld): ReplayResult {
    if w.expected.None? then Errored
    else if w.expected.value.width != WIDTH || w.expected.value.height != HEIGHT then Failed
    else if w.expected.value.pixels == w.actual then Passed
    else if !w.writeActualOk || !w.writeDiffOk then Errored
    else Failed
  }

  /** The comparison loops of replay_test_case: fills the diff buffer and
      reports whether any pixel differs. */
  method ComparePixels(expected: seq<u32>, actual: seq<u32>, diff: array<u32>) returns (failed: bool)
    requires |expected| == |actual| == diff.Length == WIDTH * HEIGHT
    modifies diff
    ensures diff[..] == Diff(expected, actual)
    ensures failed <==> expected != actual
  {
    failed := false;
    var y := 0;
    while y < HEIGHT
      invariant 0 <= y <= HEIGHT
      invariant forall i :: 0 <= i < y * WIDTH ==> diff[i] == DiffPixel(expected[i], actual[i])
      invariant failed <==> exists i :: 0 <= i < y * WIDTH && expected[i] != actual[i]
    {
      var x := 0;
      while x < WIDTH
        invariant 0 <= x <= WIDTH
        invariant forall i :: 0 <= i < y * WIDTH + x ==> diff[i] == DiffPixel(expected[i], actual[i])
        invariant failed <==> exists i :: 0 <= i < y * WIDTH + x && expected[i] != actual[i]
      {
        var expectedPixel := expected[y * WIDTH + x];
        var actualPixel := actual[y * WIDTH + x];
        if expectedPixel != actualPixel {
          diff[y * WIDTH + x] := ERROR_COLOR;
          failed := true;
        } else {
          diff[y * WIDTH + x] := expectedPixel;
        }
        x := x + 1;
      }
      y := y + 1;
    }
    if !failed {
      assert expected == actual;
    }
  }

  /** replay_test_case: the diff buffer is filled only when the expected
      image has the right size. */
  method ReplayTestCase(w: CaseWorld, diff: array<u32>) returns (r: ReplayResult)
    requires ValidWorld(w) && diff.Length == WIDTH * HEIGHT
    modifies diff
    ensures r == Verdict(w)
    ensures w.expected.Some? && w.expected.value.width == WIDTH && w.expected.value.height == HEIGHT ==>
      diff[..] == Diff(w.expected.value.pixels, w.actual)
  {
    if w.expected.None? {
      return Errored;
    }
    var img := w.expected.value;
    if img.width != WIDTH || img.height != HEIGHT {
      return Failed;
    }
    var failed := ComparePixels(img.pixels, w.actual, diff);
    if failed {
      if !w.writeActualOk {
        return Errored;
      }
      if !w.writeDiffOk {
        return Errored;
      }
      return Failed;
    }
    return Passed;
  }

  // ---------------------------------------------------------------------
  // main

  /** A test case's image paths, derived from its name. */
  datatype TestCase = TestCase(name: seq<char>, expectedPath: seq<char>, actualPath: seq<char>, diffPath: seq<char>)

  function DefineTestCase(name: seq<char>): (t: TestCase)
    ensures t.name == name
    ensures t.expectedPath == TEST_DIR_PATH + "/" + name + "_expected.png"
    ensures t.actualPath == TEST_DIR_PATH + "/" + name + "_actual.png"
    ensures t.diffPath == TEST_DIR_PATH + "/" + name + "_diff.png"
  {
    TestCase(name, TEST_DIR_PATH + "/" + name + "_expected.png",
             TEST_DIR_PATH + "/" + name + "_actual.png", TEST_DIR_PATH + "/" + name + "_diff.png")
  }

  const TEST_CASES: seq<TestCase> := [
    DefineTestCase("test_fill_rect"),
    DefineTestCase("test_fill_circle"),
    DefineTestCase("test_draw_line"),
    DefineTestCase("test_fill_triangle"),
    DefineTestCase("test_alpha_blending"),
    DefineTestCase("test_transparency")]

  /** Record mode: the first argument is exactly "record". */
  predicate IsRecord(argv: seq<seq<char>>) {
    |argv| >= 2 && argv[1] == "record"
  }

  /** A case that makes main return 1: a failed write when recording, an
      ERRORED replay otherwise. FAILED replays do not stop the run. */
  predicate Fatal(record: bool, w: CaseWorld) {
    if record then !w.writeExpectedOk else Verdict(w) == Errored
  }

  /** main: runs the cases in order and returns 1 at the first fatal one;
      `ran` is how many cases were run. */
  method TestMain(argv: seq<seq<char>>, worlds: seq<CaseWorld>) returns (status: int, ran: nat)
    requires |argv| >= 1 && |worlds| == |TEST_CASES|
    requires forall i :: 0 <= i < |worlds| ==> ValidWorld(worlds[i])
    ensures status == 0 || status == 1
    ensures status == 0 <==> forall i :: 0 <= i < |worlds| ==> !Fatal(IsRecord(argv), worlds[i])
    ensures 1 <= ran <= |worlds|
    ensures status == 1 ==>
      Fatal(IsRecord(argv), worlds[ran - 1]) && forall i :: 0 <= i < ran - 1 ==> !Fatal(IsRecord(argv), worlds[i])
    ensures status == 0 ==> ran == |worlds|
  {
    var record := |argv| >= 2 && argv[1] == "record";
    var diff := new u32[WIDTH * HEIGHT];
    var i := 0;
    while i < |worlds|
      invariant 0 <= i <= |worlds| && diff.Length == WIDTH * HEIGHT
      invariant forall j :: 0 <= j < i ==> !Fatal(record, worlds[j])
    {
      if record {
        if !worlds[i].writeExpectedOk {
          return 1, i + 1;
        }
      } else {
        var r := ReplayTestCase(worlds[i], diff);
        if r == Errored {
          return 1, i + 1;
        }
      }
      i := i + 1;
    }
    return 0, |worlds|;
  }
}
