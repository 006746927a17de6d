/** The command line shared, line for line, by tools/png2c.c and
    tools/font2c.c: `[-o <output>] [-n <name>] <input>` and the validation
    of the C identifier used as the generated symbols' prefix. */
module ToolCli {
  import opened CTypes

  datatype Options = Options(input: seq<char>, output: Option<seq<char>>, name: Option<seq<char>>)

  /** The reasons main prints usage and returns 1. */
  datatype CliError =
    | MissingValue(flag: seq<char>)
    | AlreadyProvided(flag: seq<char>)
    | InputAlreadyProvided
    | NoInput

  datatype NameError = EmptyName | LeadingDigit | BadCharacter

  /** Reference definition of the argument loop: `args` are the arguments
      still to shift, and `output`, `name`, `input` what was seen so far. */
  function Parse(args: seq<seq<char>>, output: Option<seq<char>>, name: Option<seq<char>>, input: Option<seq<char>>): (r: Result<Options, CliError>)
    ensures r.Ok? && input.Some? ==> r.value.input == input.value
    ensures r.Ok? && output.Some? ==> r.value.output == output
    ensures r.Ok? && name.Some? ==> r.value.name == name
    decreases |args|
  {
    if args == [] then
      (if input.None? then Err(NoInput) else Ok(Options(input.value, output, name)))
    else if args[0] == "-o" then
      (if |args| == 1 then Err(MissingValue("-o"))
       else if output.Some? then Err(AlreadyProvided("-o"))
       else Parse(args[2..], Some(args[1]), name, input))
    else if args[0] == "-n" then
      (if |args| == 1 then Err(MissingValue("-n"))
       else if name.Some? then Err(AlreadyProvided("-n"))
       else Parse(args[2..], output, Some(args[1]), input))
    else
      (if input.Some? then Err(InputAlreadyProvided)
       else Parse(args[1..], output, name, Some(args[0])))
  }

  /** main's argument loop: shifts the program name, then flags and their
      values, and requires an input path. */
  method ParseArgs(argv: seq<seq<char>>) returns (r: Result<Options, CliError>)
    requires |argv| > 0
    ensures r == Parse(argv[1..], None, None, None)
  {
    var args := argv[1..];
    var output: Option<seq<char>> := None;
    var name: Option<seq<char>> := None;
    var input: Option<seq<char>> := None;
    while |args| > 0
      invariant Parse(args, output, name, input) == Parse(argv[1..], None, None, None)
      decreases |args|
    {
      var flag := args[0];
      args := args[1..];
      if flag == "-o" {
        if |args| == 0 {
          return Err(MissingValue(flag));
        }
        if output.Some? {
          return Err(AlreadyProvided(flag));
        }
        output := Some(args[0]);
        args := args[1..];
      } else if flag == "-n" {
        if |args| == 0 {
          return Err(MissingValue(flag));
        }
        if name.Some? {
          return Err(AlreadyProvided(flag));
        }
        name := Some(args[0]);
        args := args[1..];
      } else {
        if input.Some? {
          return Err(InputAlreadyProvided);
        }
        input := Some(flag);
      }
    }
    if input.None? {
      return Err(NoInput);
    }
    return Ok(Options(input.value, output, name));
  }

  /** `flag` is immediately followed by `v` somewhere in `args`. */
  predicate FlagValue(args: seq<seq<char>>, flag: seq<char>, v: seq<char>) {
    exists i :: 0 <= i < |args| - 1 && args[i] == flag && args[i + 1] == v
  }

  lemma FlagValueInSuffix(args: seq<seq<char>>, k: nat, flag: seq<char>, v: seq<char>)
    requires k <= |args| && FlagValue(args[k..], flag, v)
    ensures FlagValue(args, flag, v)
  {
    var i :| 0 <= i < |args[k..]| - 1 && args[k..][i] == flag && args[k..][i + 1] == v;
    assert args[k + i] == flag && args[k + i + 1] == v;
  }

  /** What a successful parse returns comes from the arguments: the input
      path is one of them and not a flag, and an output path or a name
      follows its flag. */
  lemma {:induction false} ParseResultFromArgs(args: seq<seq<char>>, output: Option<seq<char>>, name: Option<seq<char>>, input: Option<seq<char>>)
    requires Parse(args, output, name, input).Ok?
    requires input.Some? ==> input.value != "-o" && input.value != "-n"
    ensures var o := Parse(args, output, name, input).value;
      o.input != "-o" && o.input != "-n" &&
      (o.input in args || input == Some(o.input)) &&
      (o.output.Some? ==> output == o.output || FlagValue(args, "-o", o.output.value)) &&
      (o.name.Some? ==> name == o.name || FlagValue(args, "-n", o.name.value))
    decreases |args|
  {
    if args == [] {
      return;
    }
    var o := Parse(args, output, name, input).value;
    var k := if args[0] == "-o" || args[0] == "-n" then 2 else 1;
    var output' := if args[0] == "-o" then Some(args[1]) else output;
    var name' := if args[0] == "-n" then Some(args[1]) else name;
    var input' := if k == 1 then Some(args[0]) else input;
    assert Parse(args, output, name, input) == Parse(args[k..], output', name', input');
    ParseResultFromArgs(args[k..], output', name', input');
    if o.input in args[k..] {
      assert o.input in args;
    }
    if o.output.Some? && output' != o.output {
      FlagValueInSuffix(args, k, "-o", o.output.value);
    } else if o.output.Some? && output != o.output {
      assert args[0] == "-o" && args[1] == o.output.value;
    }
    if o.name.Some? && name' != o.name {
      FlagValueInSuffix(args, k, "-n", o.name.value);
    } else if o.name.Some? && name != o.name {
      assert args[0] == "-n" && args[1] == o.name.value;
    }
  }

  /** Each error path of the argument loop. */
  lemma ParseErrors()
    ensures Parse([], None, None, None) == Err(NoInput)
    ensures Parse(["-o"], None, None, None) == Err(MissingValue("-o"))
    ensures Parse(["a.png", "-n"], None, None, None) == Err(MissingValue("-n"))
    ensures Parse(["-o", "a.h", "-o", "b.h", "a.png"], None, None, None) == Err(AlreadyProvided("-o"))
    ensures Parse(["-n", "a", "-n", "b", "a.png"], None, None, None) == Err(AlreadyProvided("-n"))
    ensures Parse(["a.png", "b.png"], None, None, None) == Err(InputAlreadyProvided)
  {
    var a: seq<seq<char>> := ["a.png", "-n"];
    assert a[0] != "-o" && a[0] != "-n";
    assert a[1..] == ["-n"];
    var b: seq<seq<char>> := ["-o", "a.h", "-o", "b.h", "a.png"];
    assert b[2..] == ["-o", "b.h", "a.png"];
    var c: seq<seq<char>> := ["-n", "a", "-n", "b", "a.png"];
    assert c[2..] == ["-n", "b", "a.png"];
    var d: seq<seq<char>> := ["a.png", "b.png"];
    assert d[0] != "-o" && d[0] != "-n";
    assert d[1..] == ["b.png"];
    assert d[1] != "-o" && d[1] != "-n";
  }

  /** A valid name: non-empty, not starting with a digit, and made of
      alphanumerics and underscores. */
  predicate ValidName(name: seq<char>) {
    |name| > 0 && !IsDigit(name[0]) && forall i :: 0 <= i < |name| ==> IsAlnum(name[i]) || name[i] == '_'
  }

  /** The name check of main: empty, then leading digit, then a bad
      character. */
  method CheckName(name: seq<char>) returns (r: Result<seq<char>, NameError>)
    ensures r.Ok? <==> ValidName(name)
    ensures r.Ok? ==> r.value == name
    ensures r == Err(EmptyName) <==> |name| == 0
    ensures r == Err(LeadingDigit) <==> |name| > 0 && IsDigit(name[0])
  {
    if |name| == 0 {
      return Err(EmptyName);
    }
    if IsDigit(name[0]) {
      return Err(LeadingDigit);
    }
    var i := 0;
    while i < |name|
      invariant 0 <= i <= |name|
      invariant forall k :: 0 <= k < i ==> IsAlnum(name[k]) || name[k] == '_'
    {
      if !IsAlnum(name[i]) && name[i] != '_' {
        return Err(BadCharacter);
      }
      i := i + 1;
    }
    return Ok(name);
  }

  /** The name used for the generated symbols: the default when -n was not
      given, else the checked name. */
  method ResolveName(name: Option<seq<char>>, default: seq<char>) returns (r: Result<seq<char>, NameError>)
    ensures name.None? ==> r == Ok(default)
    ensures name.Some? ==> (r.Ok? <==> ValidName(name.value)) && (r.Ok? ==> r.value == name.value)
  {
    if name.None? {
      return Ok(default);
    }
    r := CheckName(name.value);
  }

  /** The defaults of png2c and font2c are themselves valid names. */
  lemma DefaultNamesValid()
    ensures ValidName("png") && ValidName("font")
  {
  }
}
