/** The driver of tools/obj2c.c: the command line
    `-o <output> [-s <scale>] [-d <component>]... <input>`, then reading the
    model, numbering its connected components, and writing the header with
    the faces of the deleted components left out. The file system is an
    input of the model: the content read (or None when it cannot be read)
    and whether the output file can be opened. */
module Obj2cMain {
  import opened CTypes
  import opened Obj2c
  import opened Obj2cComponents

  /** What the argument loop collects. `scale` is the text of the last -s
      value (the default 0.75 when absent); `deleted` holds the atoi of each
      -d value in order. */
  datatype ObjOptions = ObjOptions(input: seq<char>, output: seq<char>, scale: Option<seq<char>>, deleted: seq<int>)

  /** The reasons main prints usage and returns 1 before reading. */
  datatype ObjCliError =
    | MissingValue(flag: seq<char>)
    | AlreadyProvided(flag: seq<char>)
    | InputAlreadyProvided
    | NoInput
    | NoOutput

  /** atoi: the leading decimal integer of the text, 0 when there is none. */
  function Atoi(s: seq<char>): int {
    StrToL(s).0
  }

  /** Reference definition of the argument loop. */
  function ParseFlags(args: seq<seq<char>>, output: Option<seq<char>>, scale: Option<seq<char>>,
                      deleted: seq<int>, input: Option<seq<char>>): (r: Result<ObjOptions, ObjCliError>)
    ensures r.Ok? && input.Some? ==> r.value.input == input.value
    ensures r.Ok? && output.Some? ==> r.value.output == output.value
    ensures r.Ok? ==> deleted <= r.value.deleted
    decreases |args|
  {
    if args == [] then
      (if input.None? then Err(NoInput)
       else if output.None? then Err(NoOutput)
       else Ok(ObjOptions(input.value, output.value, scale, deleted)))
    else if args[0] == "-o" then
      (if |args| == 1 then Err(MissingValue("-o"))
       else if output.Some? then Err(AlreadyProvided("-o"))
       else ParseFlags(args[2..], Some(args[1]), scale, deleted, input))
    else if args[0] == "-s" then
      (if |args| == 1 then Err(MissingValue("-s"))
       else ParseFlags(args[2..], output, Some(args[1]), deleted, input))
    else if args[0] == "-d" then
      (if |args| == 1 then Err(MissingValue("-d"))
       else ParseFlags(args[2..], output, scale, deleted + [Atoi(args[1])], input))
    else
      (if input.Some? then Err(InputAlreadyProvided)
       else ParseFlags(args[1..], output, scale, deleted, Some(args[0])))
  }

  /** main's argument loop. */
  method ParseArgs(argv: seq<seq<char>>) returns (r: Result<ObjOptions, ObjCliError>)
    requires |argv| > 0
    ensures r == ParseFlags(argv[1..], None, None, [], None)
  {
    var args := argv[1..];
    var output: Option<seq<char>> := None;
    var scale: Option<seq<char>> := None;
    var deleted: seq<int> := [];
    var input: Option<seq<char>> := None;
    while |args| > 0
      invariant ParseFlags(args, output, scale, deleted, input) == ParseFlags(argv[1..], None, None, [], None)
      decreases |args|
    {
      var flag := args[0];
      args := args[1..];
      if flag == "-o" {
        if |args| == 0 {
          return Err(MissingValue(flag));
        }
        if output.Some? {
          return Err(AlreadyProvided(flag));
        }
        output := Some(args[0]);
        args := args[1..];
      } else if flag == "-s" {
        if |args| == 0 {
          return Err(MissingValue(flag));
        }
        scale := Some(args[0]);
        args := args[1..];
      } else if flag == "-d" {
        if |args| == 0 {
          return Err(MissingValue(flag));
        }
        deleted := deleted + [Atoi(args[0])];
        args := args[1..];
      } else {
        if input.Some? {
          return Err(InputAlreadyProvided);
        }
        input := Some(flag);
      }
    }
    if input.None? {
      return Err(NoInput);
    }
    if output.None? {
      return Err(NoOutput);
    }
    return Ok(ObjOptions(input.value, output.value, scale, deleted));
  }

  /** The values that follow -d, in order, skipping the values of the other
      flags. */
  function DeleteValues(args: seq<seq<char>>): seq<seq<char>>
    decreases |args|
  {
    if args == [] then []
    else if |args| >= 2 && args[0] == "-d" then [args[1]] + DeleteValues(args[2..])
    else if |args| >= 2 && (args[0] == "-o" || args[0] == "-s") then DeleteValues(args[2..])
    else DeleteValues(args[1..])
  }

  /** A successful parse collects every -d value, in order, as atoi gives
      it; -d may repeat while -o may not. */
  lemma {:induction false} ParseDeleted(args: seq<seq<char>>, output: Option<seq<char>>, scale: Option<seq<char>>,
                                        deleted: seq<int>, input: Option<seq<char>>)
    requires ParseFlags(args, output, scale, deleted, input).Ok?
    ensures var o := ParseFlags(args, output, scale, deleted, input).value;
      |o.deleted| == |deleted| + |DeleteValues(args)| &&
      o.deleted[..|deleted|] == deleted &&
      forall i :: 0 <= i < |DeleteValues(args)| ==> o.deleted[|deleted| + i] == Atoi(DeleteValues(args)[i])
    decreases |args|
  {
    if args == [] {
      return;
    }
    var o := ParseFlags(args, output, scale, deleted, input).value;
    if args[0] == "-d" {
      var d' := deleted + [Atoi(args[1])];
      ParseDeleted(args[2..], output, scale, d', input);
      assert DeleteValues(args) == [args[1]] + DeleteValues(args[2..]);
      assert o == ParseFlags(args[2..], output, scale, d', input).value;
      DeletedStep(o.deleted, deleted, args[1], DeleteValues(args[2..]));
    } else if args[0] == "-o" {
      ParseDeleted(args[2..], Some(args[1]), scale, deleted, input);
    } else if args[0] == "-s" {
      ParseDeleted(args[2..], output, Some(args[1]), deleted, input);
    } else {
      ParseDeleted(args[1..], output, scale, deleted, Some(args[0]));
    }
  }

  /** The -d step of ParseDeleted: the value appended first precedes
      those collected after it. */
  lemma DeletedStep(od: seq<int>, deleted: seq<int>, v: seq<char>, rest: seq<seq<char>>)
    requires |od| == |deleted| + 1 + |rest|
    requires od[..|deleted| + 1] == deleted + [Atoi(v)]
    requires forall i :: 0 <= i < |rest| ==> od[|deleted| + 1 + i] == Atoi(rest[i])
    ensures od[..|deleted|] == deleted
    ensures forall i :: 0 <= i < 1 + |rest| ==> od[|deleted| + i] == Atoi(([v] + rest)[i])
  {
    assert od[..|deleted|] == od[..|deleted| + 1][..|deleted|];
    forall i | 0 <= i < 1 + |rest|
      ensures od[|deleted| + i] == Atoi(([v] + rest)[i])
    {
      if i == 0 {
        assert od[|deleted|] == od[..|deleted| + 1][|deleted|];
      } else {
        assert od[|deleted| + i] == od[|deleted| + 1 + (i - 1)];
      }
    }
  }

  /** Each error path of the argument loop, the repeatable -s (the last
      value wins) and -d. */
  lemma ParseExamples()
    ensures ParseFlags([], None, None, [], None) == Err(NoInput)
    ensures ParseFlags(["a.obj"], None, None, [], None) == Err(NoOutput)
    ensures ParseFlags(["-o"], None, None, [], None) == Err(MissingValue("-o"))
    ensures ParseFlags(["a.obj", "-s"], None, None, [], None) == Err(MissingValue("-s"))
    ensures ParseFlags(["a.obj", "-d"], None, None, [], None) == Err(MissingValue("-d"))
    ensures ParseFlags(["-o", "a.h", "-o", "b.h"], None, None, [], None) == Err(AlreadyProvided("-o"))
    ensures ParseFlags(["a.obj", "b.obj"], None, None, [], None) == Err(InputAlreadyProvided)
    ensures ParseFlags(["-s", "1", "-s", "2", "-o", "a.h", "a.obj"], None, None, [], None) == Ok(ObjOptions("a.obj", "a.h", Some("2"), []))
  {
    var a: seq<seq<char>> := ["a.obj", "-s"];
    assert a[0] != "-o" && a[0] != "-s" && a[0] != "-d";
    assert a[1..] == ["-s"];
    var b: seq<seq<char>> := ["a.obj", "-d"];
    assert b[0] != "-o" && b[0] != "-s" && b[0] != "-d";
    assert b[1..] == ["-d"];
    var c: seq<seq<char>> := ["-o", "a.h", "-o", "b.h"];
    assert c[2..] == ["-o", "b.h"];
    var d: seq<seq<char>> := ["a.obj", "b.obj"];
    assert d[0] != "-o" && d[0] != "-s" && d[0] != "-d";
    assert d[1..] == ["b.obj"];
    assert d[1] != "-o" && d[1] != "-s" && d[1] != "-d";
    var e: seq<seq<char>> := ["-s", "1", "-s", "2", "-o", "a.h", "a.obj"];
    assert e[2..] == ["-s", "2", "-o", "a.h", "a.obj"];
    assert e[4..] == ["-o", "a.h", "a.obj"];
    assert e[6..] == ["a.obj"];
    assert e[6] != "-o" && e[6] != "-s" && e[6] != "-d";
    assert e[7..] == [];
    var f: seq<seq<char>> := ["a.obj"];
    assert f[0] != "-o" && f[0] != "-s" && f[0] != "-d";
    assert f[1..] == [];
  }

  // ---------------------------------------------------------------------
  // Faces per vertex

  /** The smallest and largest number of faces at a vertex, INT_MAX and
      INT_MIN when there are no vertices. */
  method FacesPerVertex(vf: seq<seq<nat>>) returns (minFaces: int, maxFaces: int)
    ensures |vf| == 0 ==> minFaces == INT_MAX && maxFaces == INT_MIN
    ensures |vf| > 0 ==> (exists i :: 0 <= i < |vf| && |vf[i]| == minFaces) && (exists i :: 0 <= i < |vf| && |vf[i]| == maxFaces)
    ensures forall i :: 0 <= i < |vf| ==> Min(minFaces, INT_MAX) <= |vf[i]| && |vf[i]| <= Max(maxFaces, INT_MIN)
  {
    minFaces, maxFaces := INT_MAX, INT_MIN;
    var i := 0;
    while i < |vf|
      invariant 0 <= i <= |vf|
      invariant i == 0 ==> minFaces == INT_MAX && maxFaces == INT_MIN
      invariant i > 0 ==> (exists j :: 0 <= j < i && |vf[j]| == minFaces) && (exists j :: 0 <= j < i && |vf[j]| == maxFaces)
      invariant forall j :: 0 <= j < i ==> Min(minFaces, INT_MAX) <= |vf[j]| && |vf[j]| <= Max(maxFaces, INT_MIN)
    {
      var count := |vf[i]|;
      if i == 0 || minFaces > count {
        minFaces := count;
      }
      if i == 0 || maxFaces < count {
        maxFaces := count;
      }
      i := i + 1;
    }
  }

  // ---------------------------------------------------------------------
  // main

  /** What main writes to the output file. */
  datatype Written = Written(path: seq<char>, code: seq<Out>)

  /** Linked face lists only name existing vertices. */
  lemma LinkedInRange(vf: seq<seq<nat>>, faces: seq<Face>)
    requires Linked(vf, faces)
    ensures FacesInRange(faces, |vf|)
  {
  }

  /** main: parse the arguments, read the file, parse the model, number the
      components, open the output and generate the code; 0 on success and
      1 on the first failure. */
  method ToolMain(argv: seq<seq<char>>, content: Option<seq<char>>, canOpen: bool)
    returns (status: int, compCount: nat, components: seq<int>, written: Option<Written>)
    requires |argv| > 0
    ensures status == 0 || status == 1
    ensures status == 0 <==>
      ParseFlags(argv[1..], None, None, [], None).Ok? && content.Some? &&
      ParseLines(SplitLines(content.value), EmptyObj, 1).Ok? && canOpen
    ensures status == 1 ==> written.None?
    ensures status == 0 ==>
      var o := ParseFlags(argv[1..], None, None, [], None).value;
      var obj := ParseLines(SplitLines(content.value), EmptyObj, 1).value;
      |components| == |obj.vertexFaces| && FacesInRange(obj.faces, |components|) &&
      ComponentNumbering(components, obj.faces, compCount) &&
      written == Some(Written(o.output, ObjHeader(|obj.vertexFaces|, obj.texcoords, obj.normals,
                                                   Visible(components, obj.faces, o.deleted))))
  {
    compCount, components, written := 0, [], None;
    var parsed := ParseArgs(argv);
    if parsed.Err? {
      return 1, compCount, components, written;
    }
    var opts := parsed.value;
    if content.None? {
      return 1, compCount, components, written;
    }
    var model := ParseObj(content.value);
    if model.Err? {
      return 1, compCount, components, written;
    }
    var obj := model.value;
    ParseLinesKeepsLinked(SplitLines(content.value), EmptyObj, 1);
    var component := new int[|obj.vertexFaces|](_ => 0);
    compCount := LabelComponents(component, obj.vertexFaces, obj.faces);
    components := component[..];
    LinkedInRange(obj.vertexFaces, obj.faces);
    if !canOpen {
      return 1, compCount, components, written;
    }
    var code := GenerateCode(|obj.vertexFaces|, obj.texcoords, obj.normals, components, obj.faces, opts.deleted);
    written := Some(Written(opts.output, code));
    status := 0;
  }
}
