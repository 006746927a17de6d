/** The browser side of the WebAssembly builds: js/vc.js (the demo virtual
    console) and index.js (the older example driver). The DOM, fetch,
    WebAssembly instantiation, ImageData, requestAnimationFrame and the
    console are not part of this model: what they are asked to do is
    recorded as events on a log, the surface the user sees is a display
    value, and the module's exports are inputs (the linear memory as it is
    after a render call, the pointer a render call returns). Timestamps are
    whole milliseconds. */
module Bridge {
  import opened CTypes
  import Olive

  // ---------------------------------------------------------------------
  // Import resolution

  /** What an import name resolves to: the value a table owns, or the
      stub that logs "NOT IMPLEMENTED: <name>" with its arguments when
      called and returns undefined. */
  datatype Import<V> = Found(value: V) | Stub(name: string)

  /** make_environment's `get` trap: the first table, in argument order,
      that owns the name. */
  function Lookup<V>(envs: seq<map<string, V>>, name: string): (r: Import<V>)
    ensures r.Found? ==> exists i :: 0 <= i < |envs| && name in envs[i] && r.value == envs[i][name]
    ensures r.Stub? ==> r == Stub(name) && forall j :: 0 <= j < |envs| ==> name !in envs[j]
  {
    if envs == [] then Stub(name)
    else if name in envs[0] then Found(envs[0][name])
    else
      var r := Lookup(envs[1..], name);
      assert r.Found? ==> exists i :: 0 <= i < |envs[1..]| && name in envs[1..][i] && r.value == envs[1..][i][name];
      assert forall j :: 0 < j < |envs| ==> envs[j] == envs[1..][j - 1];
      r
  }

  /** The first owner wins, and a name no table owns gets the stub. */
  lemma {:induction false} LookupFirstOwner<V>(envs: seq<map<string, V>>, name: string, i: nat)
    requires i < |envs| && name in envs[i]
    requires forall j :: 0 <= j < i ==> name !in envs[j]
    ensures Lookup(envs, name) == Found(envs[i][name])
  {
    if i > 0 {
      assert name !in envs[0];
      LookupFirstOwner(envs[1..], name, i - 1);
    }
  }

  lemma {:induction false} LookupNoOwner<V>(envs: seq<map<string, V>>, name: string)
    requires forall j :: 0 <= j < |envs| ==> name !in envs[j]
    ensures Lookup(envs, name) == Stub(name)
  {
    if envs != [] {
      assert name !in envs[0];
      LookupNoOwner(envs[1..], name);
    }
  }

  /** The `for (let env of envs)` loop of the trap. */
  method Resolve<V>(envs: seq<map<string, V>>, name: string) returns (r: Import<V>)
    ensures r == Lookup(envs, name)
  {
    var i := 0;
    while i < |envs|
      invariant 0 <= i <= |envs|
      invariant Lookup(envs, name) == Lookup(envs[i..], name)
    {
      if name in envs[i] {
        return Found(envs[i][name]);
      }
      assert envs[i..][1..] == envs[i + 1..];
      i := i + 1;
    }
    return Stub(name);
  }

  /** The Math functions libm hands to the module (their floating-point
      behaviour is not modelled). */
  datatype MathFn = Atan2 | Cos | Sin | Sqrt

  const LIBM: map<string, MathFn> := map["atan2f" := Atan2, "cosf" := Cos, "sinf" := Sin, "sqrtf" := Sqrt]

  /** The "env" import object: make_environment(libm). */
  function Env(name: string): Import<MathFn> {
    Lookup([LIBM], name)
  }

  /** Exactly the four libm names resolve; every other import is a stub. */
  lemma EnvNames(name: string)
    ensures Env(name).Found? <==> name in {"atan2f", "cosf", "sinf", "sqrtf"}
    ensures Env(name).Stub? ==> Env(name) == Stub(name)
    ensures Env("atan2f") == Found(Atan2) && Env("cosf") == Found(Cos)
    ensures Env("sinf") == Found(Sin) && Env("sqrtf") == Found(Sqrt)
  {
    assert Lookup([LIBM][1..], name) == Stub(name);
  }

  // ---------------------------------------------------------------------
  // The canvas descriptor in linear memory

  /** The word indices of Olivec_Canvas as the module lays it out; the
      last is the number of words read. */
  const CANVAS_PIXELS: nat := 0
  const CANVAS_WIDTH: nat := 1
  const CANVAS_HEIGHT: nat := 2
  const CANVAS_STRIDE: nat := 3
  const CANVAS_SIZE: nat := 4

  datatype CanvasDesc = CanvasDesc(pixels: u32, width: u32, height: u32, stride: u32)

  /** The Uint32Array element at byte offset `at`: WebAssembly memory is
      little-endian, so byte 0 is the least significant. */
  function Word(mem: seq<u8>, at: nat): u32
    requires at + 4 <= |mem|
  {
    Olive.Pack(mem[at..at + 4])
  }

  /** The bytes of a word as they lie in memory. */
  function WordBytes(x: u32): (b: seq<u8>)
    ensures |b| == 4
  {
    Olive.Unpack(x)
  }

  /** The descriptor as the module stores it. */
  function EncodeCanvas(d: CanvasDesc): (b: seq<u8>)
    ensures |b| == 4 * CANVAS_SIZE
  {
    WordBytes(d.pixels) + WordBytes(d.width) + WordBytes(d.height) + WordBytes(d.stride)
  }

  /** Why a typed-array view could not be made: `new Uint32Array(buffer,
      offset, n)` needs a 4-aligned offset and n words inside the buffer;
      `new Uint8ClampedArray(buffer, offset, n)` needs n bytes inside it. */
  datatype ViewError = Misaligned | OutOfRange

  /** readCanvasFromMemory(buffer, canvas_ptr). */
  function ReadCanvas(mem: seq<u8>, ptr: nat): (r: Result<CanvasDesc, ViewError>)
    ensures r.Ok? ==> ptr % 4 == 0 && ptr + 4 * CANVAS_SIZE <= |mem|
    ensures r == Err(Misaligned) <==> ptr % 4 != 0
  {
    if ptr % 4 != 0 then Err(Misaligned)
    else if ptr + 4 * CANVAS_SIZE > |mem| then Err(OutOfRange)
    else Ok(CanvasDesc(Word(mem, ptr + 4 * CANVAS_PIXELS), Word(mem, ptr + 4 * CANVAS_WIDTH),
                       Word(mem, ptr + 4 * CANVAS_HEIGHT), Word(mem, ptr + 4 * CANVAS_STRIDE)))
  }

  /** A word reads back as the value whose bytes were stored. */
  lemma WordOfBytes(mem: seq<u8>, at: nat, x: u32)
    requires at + 4 <= |mem| && mem[at..at + 4] == WordBytes(x)
    ensures Word(mem, at) == x
  {
    Olive.PackUnpack(x);
  }

  /** Reading a stored descriptor gives it back, wherever it lies at an
      aligned offset. */
  lemma ReadEncoded(pre: seq<u8>, d: CanvasDesc, post: seq<u8>)
    requires |pre| % 4 == 0
    ensures ReadCanvas(pre + EncodeCanvas(d) + post, |pre|) == Ok(d)
  {
    var mem := pre + EncodeCanvas(d) + post;
    var p := |pre|;
    assert mem[p..p + 4] == WordBytes(d.pixels);
    assert mem[p + 4..p + 8] == WordBytes(d.width);
    assert mem[p + 8..p + 12] == WordBytes(d.height);
    assert mem[p + 12..p + 16] == WordBytes(d.stride);
    WordOfBytes(mem, p, d.pixels);
    WordOfBytes(mem, p + 4, d.width);
    WordOfBytes(mem, p + 8, d.height);
    WordOfBytes(mem, p + 12, d.stride);
  }

  /** The read fails exactly on a misaligned pointer or a descriptor that
      runs past the end of memory. */
  lemma ReadCanvasFails(mem: seq<u8>, ptr: nat)
    ensures ReadCanvas(mem, ptr).Err? <==> ptr % 4 != 0 || ptr + 16 > |mem|
    ensures ReadCanvas(mem, ptr) == Err(Misaligned) <==> ptr % 4 != 0
  {
  }

  // ---------------------------------------------------------------------
  // Showing a frame

  /** The surface on the page: its size and its RGBA bytes, row by row. */
  datatype Display = Display(width: nat, height: nat, rgba: seq<u8>)

  /** Why `new ImageData(view, width)` failed: the view ran past memory, or
      the image is empty (the HTML standard's ImageData constructor rejects
      a zero-length array and a zero width). */
  datatype ImageError = ViewFailed | EmptyImage

  /** `new ImageData(new Uint8ClampedArray(buffer, offset, width*height*4),
      width)`: the image aliases width*height*4 bytes of memory. */
  function Image(mem: seq<u8>, offset: nat, width: nat, height: nat): (r: Result<Display, ImageError>)
    ensures r.Ok? ==> |r.value.rgba| == width * height * 4 && r.value.width == width && r.value.height == height
  {
    if offset + width * height * 4 > |mem| then Err(ViewFailed)
    else if width * height == 0 then Err(EmptyImage)
    else Ok(Display(width, height, mem[offset..offset + width * height * 4]))
  }

  /** What one render(dt) of vc.js leads to: the canvas shown, the
      width/stride error logged and the blit skipped, or an exception that
      escapes the animation callback. */
  datatype Frame = Shown(display: Display) | StrideMismatch(width: u32, stride: u32) | Thrown

  /** render(dt) after vc_render has returned, reading the memory as it is
      then. */
  function DemoFrame(mem: seq<u8>, heapBase: nat): (f: Frame)
    ensures f.Shown? ==> f.display.width * f.display.height > 0
    ensures f.Shown? ==> |f.display.rgba| == f.display.width * f.display.height * 4
    ensures f.StrideMismatch? ==> f.width != f.stride
    ensures !f.Thrown? ==> ReadCanvas(mem, heapBase).Ok?
  {
    match ReadCanvas(mem, heapBase)
    case Err(_) => Thrown
    case Ok(d) =>
      if d.width != d.stride then StrideMismatch(d.width, d.stride)
      else match Image(mem, d.pixels, d.width, d.height)
        case Err(_) => Thrown
        case Ok(display) => Shown(display)
  }

  /** A descriptor stored at heap_base with width equal to stride and its
      pixels in memory is shown as exactly those pixels. */
  lemma DemoFrameShowsCanvas(pre: seq<u8>, d: CanvasDesc, post: seq<u8>)
    requires |pre| % 4 == 0 && d.width == d.stride && d.width * d.height > 0
    requires d.pixels + d.width * d.height * 4 <= |pre| + 16 + |post|
    ensures DemoFrame(pre + EncodeCanvas(d) + post, |pre|)
      == Shown(Display(d.width, d.height, (pre + EncodeCanvas(d) + post)[d.pixels..d.pixels + d.width * d.height * 4]))
  {
    ReadEncoded(pre, d, post);
  }

  /** A canvas whose width differs from its stride is never blitted: one
      error names both values. */
  lemma DemoFrameStride(pre: seq<u8>, d: CanvasDesc, post: seq<u8>)
    requires |pre| % 4 == 0 && d.width != d.stride
    ensures DemoFrame(pre + EncodeCanvas(d) + post, |pre|) == StrideMismatch(d.width, d.stride)
  {
    ReadEncoded(pre, d, post);
  }

  /** render(dt) as js/vc.js writes it: `buffer` is taken before vc_render
      runs. When vc_render grows the memory, that buffer is detached and
      the Uint32Array on it throws. */
  function DemoFrameAsWritten(memAfter: seq<u8>, grew: bool, heapBase: nat): Frame {
    if grew then Thrown else DemoFrame(memAfter, heapBase)
  }

  /** Without growth the snapshot is the live memory, so nothing differs;
      with growth a frame that would show a canvas throws instead. */
  lemma DetachedSnapshot()
    ensures forall mem, hb :: DemoFrameAsWritten(mem, false, hb) == DemoFrame(mem, hb)
    ensures var mem := EncodeCanvas(CanvasDesc(16, 1, 1, 1)) + [1, 2, 3, 4];
      DemoFrame(mem, 0) == Shown(Display(1, 1, [1, 2, 3, 4])) && DemoFrameAsWritten(mem, true, 0) == Thrown
  {
    var d := CanvasDesc(16, 1, 1, 1);
    var mem := EncodeCanvas(d) + [1, 2, 3, 4];
    DemoFrameShowsCanvas([], d, [1, 2, 3, 4]);
    assert [] + EncodeCanvas(d) + [1, 2, 3, 4] == mem;
    assert mem[16..20] == [1, 2, 3, 4];
  }

  // ---------------------------------------------------------------------
  // The drivers

  /** What the page is asked to do, in order. */
  datatype Event =
    | ElementMissing(id: string, wasmPath: string)   // console.error, the driver gives up
    | InitCall                                        // w.instance.exports.init()
    | RenderAt(ptr: nat, dtMs: int)                   // vc_render(heap_base, dt*0.001)
    | Render(dtMs: int)                               // render(dt*0.001)
    | StrideError(width: u32, stride: u32)            // console.error of a width/stride mismatch
    | Blit(display: Display)                          // putImageData(image, 0, 0)

  /** The animation callback requestAnimationFrame will run next, if any:
      an exception inside a callback ends the chain. */
  datatype Scheduled = First | Loop | Ended

  /** The events and display change of one frame. */
  function FrameEvents(f: Frame): seq<Event> {
    match f
    case Shown(display) => [Blit(display)]
    case StrideMismatch(w, s) => [StrideError(w, s)]
    case Thrown => []
  }

  function Sum(s: seq<int>): int {
    if s == [] then 0 else Sum(s[..|s| - 1]) + s[|s| - 1]
  }

  /** startDemo once `app-<id>` and `sec-<id>` are found and the module is
      instantiated: paused, no timestamp yet, `first` scheduled. */
  class Demo {
    const heapBase: nat
    var paused: bool
    var prev: Option<int>
    var scheduled: Scheduled
    ghost var log: seq<Event>
    ghost var display: Option<Display>
    /** The first timestamp and every dt computed since. */
    ghost var start: int
    ghost var dts: seq<int>

    /** `prev` is the first timestamp plus every dt since: the dts
        telescope, whether or not they were rendered. */
    ghost predicate Valid()
      reads this
    {
      (scheduled == Loop ==> prev.Some?) &&
      (prev.None? ==> dts == []) &&
      (prev.Some? ==> prev.value == start + Sum(dts))
    }

    constructor(heapBase: nat)
      ensures Valid() && this.heapBase == heapBase
      ensures paused && prev == None && scheduled == First
      ensures log == [] && display == None && dts == []
    {
      this.heapBase := heapBase;
      paused := true;
      prev := None;
      scheduled := First;
      log := [];
      display := None;
      start := 0;
      dts := [];
    }

    /** The `mouseenter` listener. */
    method MouseEnter()
      modifies this
      ensures !paused
      ensures prev == old(prev) && scheduled == old(scheduled) && log == old(log)
      ensures display == old(display) && start == old(start) && dts == old(dts)
    {
      paused := false;
    }

    /** The `mouseleave` listener. */
    method MouseLeave()
      modifies this
      ensures paused
      ensures prev == old(prev) && scheduled == old(scheduled) && log == old(log)
      ensures display == old(display) && start == old(start) && dts == old(dts)
    {
      paused := true;
    }

    /** render(dt); `mem` is the linear memory after vc_render returns.
        The result is false when an exception escapes. */
    method RenderFrame(dt: int, mem: seq<u8>) returns (ok: bool)
      modifies this
      ensures ok == !DemoFrame(mem, heapBase).Thrown?
      ensures log == old(log) + [RenderAt(heapBase, dt)] + FrameEvents(DemoFrame(mem, heapBase))
      ensures display == (if DemoFrame(mem, heapBase).Shown? then Some(DemoFrame(mem, heapBase).display) else old(display))
      ensures paused == old(paused) && prev == old(prev) && scheduled == old(scheduled)
      ensures start == old(start) && dts == old(dts)
    {
      log := log + [RenderAt(heapBase, dt)];
      var canvas := ReadCanvas(mem, heapBase);
      if canvas.Err? {
        return false;
      }
      var d := canvas.value;
      if d.width != d.stride {
        log := log + [StrideError(d.width, d.stride)];
        return true;
      }
      var image := Image(mem, d.pixels, d.width, d.height);
      if image.Err? {
        return false;
      }
      display := Some(image.value);
      log := log + [Blit(image.value)];
      return true;
    }

    /** `first(timestamp)`: record the timestamp, render with dt 0 even
        while paused, schedule `loop`. */
    method OnFirst(timestamp: int, mem: seq<u8>)
      requires Valid() && scheduled == First
      modifies this
      ensures Valid()
      ensures prev == Some(timestamp) && paused == old(paused)
      ensures start == timestamp && dts == []
      ensures log == old(log) + [RenderAt(heapBase, 0)] + FrameEvents(DemoFrame(mem, heapBase))
      ensures display == (if DemoFrame(mem, heapBase).Shown? then Some(DemoFrame(mem, heapBase).display) else old(display))
      ensures scheduled == (if DemoFrame(mem, heapBase).Thrown? then Ended else Loop)
    {
      prev := Some(timestamp);
      start := timestamp;
      dts := [];
      var ok := RenderFrame(0, mem);
      scheduled := if ok then Loop else Ended;
    }

    /** `loop(timestamp)`: dt is the time since the previous callback;
        render only when not paused; schedule `loop` again. */
    method OnLoop(timestamp: int, mem: seq<u8>)
      requires Valid() && scheduled == Loop
      modifies this
      ensures Valid()
      ensures prev == Some(timestamp) && paused == old(paused)
      ensures dts == old(dts) + [timestamp - old(prev).value]
      ensures old(paused) ==> log == old(log) && display == old(display) && scheduled == Loop
      ensures !old(paused) ==>
        log == old(log) + [RenderAt(heapBase, timestamp - old(prev).value)] + FrameEvents(DemoFrame(mem, heapBase)) &&
        display == (if DemoFrame(mem, heapBase).Shown? then Some(DemoFrame(mem, heapBase).display) else old(display)) &&
        scheduled == (if DemoFrame(mem, heapBase).Thrown? then Ended else Loop)
    {
      var dt := timestamp - prev.value;
      prev := Some(timestamp);
      dts := dts + [dt];
      assert Sum(dts) == Sum(old(dts)) + dt;
      var ok := true;
      if !paused {
        ok := RenderFrame(dt, mem);
      }
      scheduled := if ok then Loop else Ended;
    }
  }

  /** startDemo's element checks: `app-<id>` first, then `sec-<id>`; a
      missing one is logged and the demo is skipped. */
  method StartDemo(id: string, wasmPath: string, hasApp: bool, hasSec: bool, heapBase: nat)
    returns (demo: Demo?, log: seq<Event>)
    ensures !hasApp ==> demo == null && log == [ElementMissing("app-" + id, wasmPath)]
    ensures hasApp && !hasSec ==> demo == null && log == [ElementMissing("sec-" + id, wasmPath)]
    ensures hasApp && hasSec ==> demo != null && fresh(demo) && demo.Valid() && log == []
    ensures hasApp && hasSec ==> demo.paused && demo.scheduled == First && demo.heapBase == heapBase
  {
    if !hasApp {
      return null, [ElementMissing("app-" + id, wasmPath)];
    }
    if !hasSec {
      return null, [ElementMissing("sec-" + id, wasmPath)];
    }
    demo := new Demo(heapBase);
    log := [];
  }

  /** index.js's fixed surface. */
  const DISPLAY_WIDTH: nat := 800
  const DISPLAY_HEIGHT: nat := 600

  /** A freshly sized canvas: transparent black. */
  function Blank(width: nat, height: nat): (d: Display)
    ensures |d.rgba| == width * height * 4 && forall i :: 0 <= i < |d.rgba| ==> d.rgba[i] == 0
  {
    Display(width, height, seq(width * height * 4, _ => 0))
  }

  /** startExample once the element is found, sized 800x600, the module
      instantiated and `init` called. */
  class Example {
    var prev: Option<int>
    var scheduled: Scheduled
    ghost var log: seq<Event>
    ghost var display: Display
    /** The first timestamp and every dt handed to render since. */
    ghost var start: int
    ghost var dts: seq<int>

    /** The surface never changes size, and render has been handed
        exactly the time elapsed since the first callback. */
    ghost predicate Valid()
      reads this
    {
      display.width == DISPLAY_WIDTH && display.height == DISPLAY_HEIGHT &&
      |log| > 0 && log[0] == InitCall &&
      (scheduled == Loop ==> prev.Some?) &&
      (prev.None? ==> dts == []) &&
      (prev.Some? ==> prev.value == start + Sum(dts))
    }

    constructor()
      ensures Valid() && prev == None && scheduled == First
      ensures log == [InitCall] && display == Blank(DISPLAY_WIDTH, DISPLAY_HEIGHT) && dts == []
    {
      prev := None;
      scheduled := First;
      log := [InitCall];
      display := Blank(DISPLAY_WIDTH, DISPLAY_HEIGHT);
      start := 0;
      dts := [];
    }

    /** `first(timestamp)`: only records the timestamp. */
    method OnFirst(timestamp: int)
      requires Valid() && scheduled == First
      modifies this
      ensures Valid()
      ensures prev == Some(timestamp) && scheduled == Loop && log == old(log) && display == old(display)
    {
      prev := Some(timestamp);
      start := timestamp;
      dts := [];
      scheduled := Loop;
    }

    /** `loop(timestamp)`: render(dt*0.001) returns the pixel offset
        `pixels`, and `mem` is the memory after it; width*height*4 bytes
        from there are blitted, then `loop` is scheduled again. */
    method OnLoop(timestamp: int, pixels: nat, mem: seq<u8>)
      requires Valid() && scheduled == Loop
      modifies this
      ensures Valid()
      ensures prev == Some(timestamp) && dts == old(dts) + [timestamp - old(prev).value]
      ensures Image(mem, pixels, DISPLAY_WIDTH, DISPLAY_HEIGHT).Ok? ==>
        scheduled == Loop && display == Image(mem, pixels, DISPLAY_WIDTH, DISPLAY_HEIGHT).value &&
        log == old(log) + [Render(timestamp - old(prev).value), Blit(display)]
      ensures Image(mem, pixels, DISPLAY_WIDTH, DISPLAY_HEIGHT).Err? ==>
        scheduled == Ended && display == old(display) &&
        log == old(log) + [Render(timestamp - old(prev).value)]
    {
      var dt := timestamp - prev.value;
      prev := Some(timestamp);
      dts := dts + [dt];
      assert Sum(dts) == Sum(old(dts)) + dt;
      log := log + [Render(dt)];
      var image := Image(mem, pixels, DISPLAY_WIDTH, DISPLAY_HEIGHT);
      if image.Err? {
        scheduled := Ended;
        return;
      }
      display := image.value;
      log := log + [Blit(display)];
      scheduled := Loop;
    }
  }

  /** startExample's element check: a missing element is logged and the
      example is skipped before anything is loaded. */
  method StartExample(id: string, wasmPath: string, hasApp: bool) returns (example: Example?, log: seq<Event>)
    ensures !hasApp ==> example == null && log == [ElementMissing(id, wasmPath)]
    ensures hasApp ==> example != null && fresh(example) && example.Valid()
    ensures hasApp ==> example.log == [InitCall] && example.scheduled == First && example.prev == None
  {
    if !hasApp {
      return null, [ElementMissing(id, wasmPath)];
    }
    example := new Example();
    log := [];
  }

  /** The dts of a run telescope: their sum is the last timestamp minus
      the first. */
  lemma {:induction false} SumDifferences(stamps: seq<int>)
    requires |stamps| > 0
    ensures Sum(Differences(stamps)) == stamps[|stamps| - 1] - stamps[0]
  {
    if |stamps| > 1 {
      var init := stamps[..|stamps| - 1];
      SumDifferences(init);
      assert Differences(stamps)[..|stamps| - 2] == Differences(init);
    }
  }

  /** The dt of each callback after the first. */
  function Differences(stamps: seq<int>): (d: seq<int>)
    requires |stamps| > 0
    ensures |d| == |stamps| - 1
    ensures forall i :: 0 <= i < |d| ==> d[i] == stamps[i + 1] - stamps[i]
  {
    if |stamps| == 1 then [] else Differences(stamps[..|stamps| - 1]) + [stamps[|stamps| - 1] - stamps[|stamps| - 2]]
  }
}
