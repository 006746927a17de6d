/** nobuild.h: C-string arrays and the CHAIN(...) token builder. A C string
    is modelled by its characters before the terminating NUL; a string
    array `{elems, count}` by an `array<seq<char>>` of length `count`. */
module Nobuild {
  import opened CTypes

  // ---------------------------------------------------------------------
  // String helpers

  /** cstr_ends_with: the postfix is no longer than the string and equals
      its trailing characters. */
  function CstrEndsWith(s: seq<char>, postfix: seq<char>): (r: bool)
    ensures r <==> |postfix| <= |s| && forall i :: 0 <= i < |postfix| ==> s[|s| - |postfix| + i] == postfix[i]
  {
    |postfix| <= |s| && s[|s| - |postfix|..] == postfix
  }

  lemma CstrEndsWithIsSuffix(s: seq<char>, postfix: seq<char>)
    ensures CstrEndsWith(s, postfix) <==> exists front :: s == front + postfix
  {
    if CstrEndsWith(s, postfix) {
      assert s == s[..|s| - |postfix|] + postfix;
    }
    if exists front :: s == front + postfix {
      var front :| s == front + postfix;
      assert s[|s| - |postfix|..] == postfix;
    }
  }

  /** cstr_no_ext: the path before its last '.', or the path itself when it
      has no '.'. */
  method CstrNoExt(path: seq<char>) returns (r: seq<char>)
    ensures '.' in path ==> |r| < |path| && r == path[..|r|] && path[|r|] == '.' && '.' !in path[|r| + 1..]
    ensures '.' !in path ==> r == path
  {
    var n := |path|;
    while n > 0 && path[n - 1] != '.'
      invariant 0 <= n <= |path|
      invariant '.' !in path[n..]
    {
      n := n - 1;
    }
    if n > 0 {
      r := path[..n - 1];
      assert path[n - 1..] == [path[n - 1]] + path[n..];
    } else {
      assert path[n..] == path;
      r := path;
    }
  }

  // ---------------------------------------------------------------------
  // String arrays

  /** cstr_array_append: a new array one longer, holding the old entries
      followed by the new string. */
  method CstrArrayAppend(cstrs: array<seq<char>>, cstr: seq<char>) returns (result: array<seq<char>>)
    ensures fresh(result)
    ensures result[..] == cstrs[..] + [cstr]
  {
    result := new seq<char>[cstrs.Length + 1];
    forall i | 0 <= i < cstrs.Length {
      result[i] := cstrs[i];
    }
    result[cstrs.Length] := cstr;
  }

  /** cstr_array_make: the arguments before the terminating NULL; the list
      `first, rest...` must contain a NULL. */
  method CstrArrayMake(first: Option<seq<char>>, rest: seq<Option<seq<char>>>) returns (result: array<seq<char>>)
    requires first.Some? ==> None in rest
    ensures fresh(result)
    ensures result[..] == BeforeNull([first] + rest)
  {
    if first.None? {
      return new seq<char>[0];
    }
    ghost var z :| 0 <= z < |rest| && rest[z] == None;
    var count := 1;
    var i := 0;
    while rest[i].Some?
      invariant 0 <= i <= z && count == i + 1
      invariant forall k :: 0 <= k < i ==> rest[k].Some?
      decreases z - i
    {
      i := i + 1;
      count := count + 1;
    }
    result := new seq<char>[count];
    count := 0;
    result[count] := first.value;
    count := count + 1;
    var j := 0;
    while rest[j].Some?
      invariant 0 <= j <= i && count == j + 1 && result.Length == i + 1 && rest[i].None?
      invariant result[0] == first.value
      invariant forall k :: 0 <= k < j ==> result[k + 1] == rest[k].value
      decreases i - j
    {
      result[count] := rest[j].value;
      count := count + 1;
      j := j + 1;
    }
    ValuesBeforeNull(first, rest, i, result[..]);
  }

  /** The values before the first NULL of `first, rest...`, laid out one
      after the other, are exactly BeforeNull's list. */
  lemma ValuesBeforeNull<T>(first: Option<T>, rest: seq<Option<T>>, n: nat, vals: seq<T>)
    requires first.Some? && n < |rest| && rest[n] == None && forall k :: 0 <= k < n ==> rest[k].Some?
    requires |vals| == n + 1 && vals[0] == first.value
    requires forall k :: 0 <= k < n ==> vals[k + 1] == rest[k].value
    ensures vals == BeforeNull([first] + rest)
  {
    var all := [first] + rest;
    BeforeNullUpTo(all, n + 1);
    forall k | 0 <= k < n + 1
      ensures vals[k] == BeforeNull(all)[k]
    {
      if k > 0 {
        assert all[k] == rest[k - 1];
      }
    }
  }

  /** When the first NULL is at n, the arguments before it are the first
      n values. */
  lemma BeforeNullUpTo<T>(xs: seq<Option<T>>, n: nat)
    requires n < |xs| && xs[n] == None && forall k :: 0 <= k < n ==> xs[k].Some?
    ensures |BeforeNull(xs)| == n && forall k :: 0 <= k < n ==> BeforeNull(xs)[k] == xs[k].value
  {
  }

  /** Reference definition: the strings separated by `sep`. */
  function Joined(strs: seq<seq<char>>, sep: seq<char>): seq<char> {
    if strs == [] then []
    else if |strs| == 1 then strs[0]
    else Joined(strs[..|strs| - 1], sep) + sep + strs[|strs| - 1]
  }

  function TotalLength(strs: seq<seq<char>>): nat {
    if strs == [] then 0 else TotalLength(strs[..|strs| - 1]) + |strs[|strs| - 1]|
  }

  /** The joined length is the sum of the lengths plus count-1 separators. */
  lemma {:induction false} JoinedLength(strs: seq<seq<char>>, sep: seq<char>)
    requires |strs| > 0
    ensures |Joined(strs, sep)| == TotalLength(strs) + (|strs| - 1) * |sep|
  {
    if |strs| > 1 {
      JoinedLength(strs[..|strs| - 1], sep);
    }
  }

  /** memcpy of `src` into `dst` at `at`. */
  method CopyInto(dst: array<char>, at: nat, src: seq<char>)
    requires at + |src| <= dst.Length
    modifies dst
    ensures dst[at..at + |src|] == src
    ensures dst[..at] == old(dst[..at]) && dst[at + |src|..] == old(dst[at + |src|..])
  {
    forall i | 0 <= i < |src| {
      dst[at + i] := src[i];
    }
  }

  /** cstr_array_join: "" for no strings, otherwise a buffer of
      (count-1)*len(sep) + sum of lengths + 1 characters holding the strings
      separated by `sep` and a NUL. */
  method CstrArrayJoin(sep: seq<char>, cstrs: array<seq<char>>) returns (result: array<char>)
    ensures fresh(result)
    ensures result[..] == Joined(cstrs[..], sep) + ['\0']
  {
    if cstrs.Length == 0 {
      result := new char[1];
      result[0] := '\0';
      return;
    }
    var len := 0;
    var i := 0;
    while i < cstrs.Length
      invariant 0 <= i <= cstrs.Length
      invariant len == TotalLength(cstrs[..i])
    {
      assert cstrs[..i + 1][..i] == cstrs[..i];
      len := len + |cstrs[i]|;
      i := i + 1;
    }
    assert cstrs[..cstrs.Length] == cstrs[..];
    JoinedLength(cstrs[..], sep);
    var resultLen := (cstrs.Length - 1) * |sep| + len + 1;
    result := new char[resultLen];
    WriteJoined(result, cstrs, sep);
  }

  /** Copies `piece` to position len, after the text already written. */
  method AppendPiece(dst: array<char>, len: nat, piece: seq<char>) returns (next: nat)
    requires len + |piece| <= dst.Length
    modifies dst
    ensures next == len + |piece|
    ensures dst[..next] == old(dst[..len]) + piece
  {
    CopyInto(dst, len, piece);
    next := len + |piece|;
    assert dst[..next] == dst[..len] + dst[len..next];
  }

  /** One more string joined: the separator (unless it is the first) and
      the string, still within the full join's length. */
  lemma JoinedStep(strs: seq<seq<char>>, sep: seq<char>, i: nat)
    requires i < |strs|
    ensures Joined(strs[..i + 1], sep) == (if i == 0 then strs[0] else Joined(strs[..i], sep) + sep + strs[i])
    ensures |Joined(strs[..i + 1], sep)| <= |Joined(strs, sep)|
  {
    assert strs[..i + 1][..i] == strs[..i];
    JoinedLength(strs[..i + 1], sep);
    JoinedLength(strs, sep);
    TotalLengthPrefix(strs, i + 1);
    MulLe(i, |strs| - 1, |sep|);
  }

  /** The copying loop of cstr_array_join into a buffer of the computed
      length. */
  method WriteJoined(result: array<char>, cstrs: array<seq<char>>, sep: seq<char>)
    requires cstrs.Length > 0 && result.Length == |Joined(cstrs[..], sep)| + 1
    modifies result
    ensures result[..] == Joined(cstrs[..], sep) + ['\0']
  {
    ghost var all := cstrs[..];
    var len := 0;
    var i := 0;
    while i < cstrs.Length
      invariant 0 <= i <= cstrs.Length
      invariant i == 0 ==> len == 0
      invariant len < result.Length
      invariant i > 0 ==> len == |Joined(all[..i], sep)| && result[..len] == Joined(all[..i], sep)
    {
      JoinedStep(all, sep, i);
      if i > 0 {
        len := AppendPiece(result, len, sep);
      }
      len := AppendPiece(result, len, cstrs[i]);
      i := i + 1;
    }
    assert all[..i] == all;
    ghost var joined := result[..len];
    result[len] := '\0';
    assert result[..len] == joined;
    assert result[..] == result[..len] + [result[len]];
  }

  /** The lengths of a prefix of the strings add up to no more than the
      lengths of all of them. */
  lemma {:induction false} TotalLengthPrefix(strs: seq<seq<char>>, i: nat)
    requires i <= |strs|
    ensures TotalLength(strs[..i]) <= TotalLength(strs)
    decreases |strs|
  {
    if i < |strs| {
      assert strs[..|strs| - 1][..i] == strs[..i];
      TotalLengthPrefix(strs[..|strs| - 1], i);
    } else {
      assert strs[..i] == strs;
    }
  }

  // ---------------------------------------------------------------------
  // CHAIN(...)

  /** A Chain_Token: END, IN(path), OUT(path) or CHAIN_CMD(args...). */
  datatype ChainToken = End | In(path: seq<char>) | Out(path: seq<char>) | Cmd(line: seq<seq<char>>)

  /** The paths of the IN tokens, in order. */
  function Inputs(ts: seq<ChainToken>): seq<seq<char>> {
    if ts == [] then []
    else Inputs(ts[..|ts| - 1]) + (if ts[|ts| - 1].In? then [ts[|ts| - 1].path] else [])
  }

  /** The paths of the OUT tokens, in order. */
  function Outputs(ts: seq<ChainToken>): seq<seq<char>> {
    if ts == [] then []
    else Outputs(ts[..|ts| - 1]) + (if ts[|ts| - 1].Out? then [ts[|ts| - 1].path] else [])
  }

  /** The argument lists of the CHAIN_CMD tokens, in order. */
  function Lines(ts: seq<ChainToken>): seq<seq<seq<char>>> {
    if ts == [] then []
    else Lines(ts[..|ts| - 1]) + (if ts[|ts| - 1].Cmd? then [ts[|ts| - 1].line] else [])
  }

  /** The position of the first END at or after k (|ts| when none). */
  function EndAt(ts: seq<ChainToken>, k: nat): (r: nat)
    requires k <= |ts|
    ensures k <= r <= |ts|
    ensures forall j :: k <= j < r ==> ts[j] != End
    ensures r < |ts| ==> ts[r] == End
    decreases |ts| - k
  {
    if k == |ts| || ts[k] == End then k else EndAt(ts, k + 1)
  }

  /** The tokens chain_build_from_tokens reads from `first, ...`: the first
      one, whatever it is, then those before the next END. */
  function Segment(tokens: seq<ChainToken>): seq<ChainToken>
    requires |tokens| > 0
  {
    tokens[..EndAt(tokens, 1)]
  }

  /** A token list that CHAIN(...) accepts: it does not start with END and
      has at most one IN and at most one OUT. */
  predicate WellFormedChain(seg: seq<ChainToken>) {
    |seg| > 0 && seg[0] != End && |Inputs(seg)| <= 1 && |Outputs(seg)| <= 1
  }

  /** IN and OUT tokens never become commands: dropping one changes no
      command line, and CHAIN_CMD tokens never set a file. */
  lemma {:induction false} InOutAreNotCommands(a: seq<ChainToken>, t: ChainToken, b: seq<ChainToken>)
    requires !t.Cmd?
    ensures Lines(a + [t] + b) == Lines(a + b)
    decreases |b|
  {
    if b == [] {
      SnocFilters(a, t);
      assert a + [t] + b == a + [t];
      assert a + b == a;
    } else {
      var n := |b| - 1;
      assert (a + [t] + b)[..|a| + 1 + n] == a + [t] + b[..n];
      assert (a + b)[..|a| + n] == a + b[..n];
      InOutAreNotCommands(a, t, b[..n]);
    }
  }

  lemma SnocFilters(p: seq<ChainToken>, t: ChainToken)
    ensures Inputs(p + [t]) == Inputs(p) + (if t.In? then [t.path] else [])
    ensures Outputs(p + [t]) == Outputs(p) + (if t.Out? then [t.path] else [])
    ensures Lines(p + [t]) == Lines(p) + (if t.Cmd? then [t.line] else [])
  {
    assert (p + [t])[..|p|] == p;
  }

  /** The Chain under construction: input file, commands, output file. */
  class Chain {
    var input: Option<seq<char>>
    var output: Option<seq<char>>
    var cmds: array<seq<seq<char>>>
    var count: nat

    /** `Chain result = {0}`. */
    constructor()
      ensures input == None && output == None && count == 0 && cmds.Length == 0
    {
      input := None;
      output := None;
      cmds := new seq<seq<char>>[0];
      count := 0;
    }

    /** chain_set_input_output_files_or_count_cmds: false where the source
        PANICs (a second IN or OUT) or reaches its unreachable assertion
        (END); otherwise a CMD is counted and IN/OUT record their path. */
    method SetIoOrCountCmds(token: ChainToken) returns (ok: bool)
      modifies this
      ensures cmds == old(cmds)
      ensures ok == (token.Cmd? || (token.In? && old(input).None?) || (token.Out? && old(output).None?))
      ensures ok ==> count == old(count) + (if token.Cmd? then 1 else 0)
      ensures ok ==> input == (if token.In? then Some(token.path) else old(input))
      ensures ok ==> output == (if token.Out? then Some(token.path) else old(output))
    {
      match token
      case Cmd(_) =>
        count := count + 1;
        ok := true;
      case In(path) =>
        if input.Some? {
          return false;
        }
        input := Some(path);
        ok := true;
      case Out(path) =>
        if output.Some? {
          return false;
        }
        output := Some(path);
        ok := true;
      case End =>
        ok := false;
    }

    /** chain_push_cmd: a CMD token's arguments become the next command;
        other tokens change nothing. */
    method PushCmd(token: ChainToken)
      requires token.Cmd? ==> count < cmds.Length
      modifies this, cmds
      ensures cmds == old(cmds) && input == old(input) && output == old(output)
      ensures count == old(count) + (if token.Cmd? then 1 else 0)
      ensures count <= cmds.Length || count == old(count)
      ensures forall k :: 0 <= k < old(count) && k < cmds.Length ==> cmds[k] == old(cmds[k])
      ensures token.Cmd? ==> cmds[old(count)] == token.line
    {
      if token.Cmd? {
        cmds[count] := token.line;
        count := count + 1;
      }
    }
  }

  /** The file a chain records: the path of its IN (or OUT) token. */
  function FileOf(paths: seq<seq<char>>): Option<seq<char>> {
    if paths == [] then None else Some(paths[0])
  }

  /** The first pass of chain_build_from_tokens: set_io_or_count_cmds on
      the first token and on the following ones up to END; false where it
      exits. */
  method FirstPass(chain: Chain, tokens: seq<ChainToken>) returns (ok: bool)
    requires |tokens| > 0 && EndAt(tokens, 1) < |tokens|
    requires chain.input == None && chain.output == None && chain.count == 0
    modifies chain
    ensures chain.cmds == old(chain.cmds)
    ensures ok <==> WellFormedChain(Segment(tokens))
    ensures ok ==> chain.count == |Lines(Segment(tokens))|
    ensures ok ==> chain.input == FileOf(Inputs(Segment(tokens)))
    ensures ok ==> chain.output == FileOf(Outputs(Segment(tokens)))
  {
    ghost var e := EndAt(tokens, 1);
    var i := 0;
    ok := true;
    while i == 0 || tokens[i] != End
      invariant 0 <= i <= e && chain.cmds == old(chain.cmds)
      invariant ok
      invariant Tracks(tokens[..i], chain.input, chain.output, chain.count)
      decreases e - i
    {
      assert i < e;
      ok := ScanToken(chain, tokens[..i], tokens[i]);
      assert tokens[..i] + [tokens[i]] == tokens[..i + 1];
      if !ok {
        FailureStopsChain(tokens, i + 1);
        return;
      }
      i := i + 1;
    }
    assert i == e;
  }

  /** One step of the first pass: set_io_or_count_cmds on the token after
      the prefix `p` already read. */
  method ScanToken(chain: Chain, ghost p: seq<ChainToken>, t: ChainToken) returns (ok: bool)
    requires Tracks(p, chain.input, chain.output, chain.count) && (p == [] || t != End)
    modifies chain
    ensures chain.cmds == old(chain.cmds)
    ensures ok ==> Tracks(p + [t], chain.input, chain.output, chain.count)
    ensures !ok ==> !WellFormedChain(p + [t])
  {
    ghost var (input, output, count) := (chain.input, chain.output, chain.count);
    ok := chain.SetIoOrCountCmds(t);
    TracksStep(p, t, input, output, count, ok, chain.input, chain.output, chain.count);
  }

  /** What the first pass has recorded after reading the tokens `p`. */
  ghost predicate Tracks(p: seq<ChainToken>, input: Option<seq<char>>, output: Option<seq<char>>, count: nat) {
    (p != [] ==> WellFormedChain(p)) &&
    count == |Lines(p)| && input == FileOf(Inputs(p)) && output == FileOf(Outputs(p))
  }

  /** One call of chain_set_input_output_files_or_count_cmds: it succeeds
      exactly when the longer prefix is still a well-formed chain, and then
      records it. */
  lemma TracksStep(p: seq<ChainToken>, t: ChainToken, input: Option<seq<char>>, output: Option<seq<char>>, count: nat,
                   ok: bool, input': Option<seq<char>>, output': Option<seq<char>>, count': nat)
    requires Tracks(p, input, output, count) && (p == [] || t != End)
    requires ok == (t.Cmd? || (t.In? && input.None?) || (t.Out? && output.None?))
    requires ok ==> count' == count + (if t.Cmd? then 1 else 0)
    requires ok ==> input' == (if t.In? then Some(t.path) else input)
    requires ok ==> output' == (if t.Out? then Some(t.path) else output)
    ensures ok ==> Tracks(p + [t], input', output', count')
    ensures !ok ==> !WellFormedChain(p + [t])
  {
    SnocFilters(p, t);
  }

  /** A prefix of the segment that is not a well-formed chain makes the
      whole segment ill-formed. */
  lemma FailureStopsChain(tokens: seq<ChainToken>, n: nat)
    requires |tokens| > 0 && 0 < n <= EndAt(tokens, 1) < |tokens|
    requires !WellFormedChain(tokens[..n])
    ensures !WellFormedChain(Segment(tokens))
  {
    var seg := Segment(tokens);
    assert tokens[..n] == seg[..n];
    assert seg == tokens[..n] + seg[n..];
    PrefixFilters(tokens[..n], seg[n..]);
  }

  /** The second pass of chain_build_from_tokens: push_cmd on the first
      token and on the following ones up to END, into a block sized by the
      first pass. */
  method SecondPass(chain: Chain, tokens: seq<ChainToken>)
    requires |tokens| > 0 && EndAt(tokens, 1) < |tokens|
    requires chain.count == 0 && chain.cmds.Length == |Lines(Segment(tokens))|
    modifies chain, chain.cmds
    ensures chain.cmds == old(chain.cmds) && chain.input == old(chain.input) && chain.output == old(chain.output)
    ensures chain.count == chain.cmds.Length
    ensures chain.cmds[..] == Lines(Segment(tokens))
  {
    ghost var e := EndAt(tokens, 1);
    var i := 0;
    while i == 0 || tokens[i] != End
      invariant 0 <= i <= e
      invariant chain.cmds == old(chain.cmds) && chain.input == old(chain.input) && chain.output == old(chain.output)
      invariant chain.count == |Lines(tokens[..i])| <= chain.cmds.Length
      invariant chain.cmds[..chain.count] == Lines(tokens[..i])
      decreases e - i
    {
      assert i < e;
      SegmentLines(tokens, i);
      ghost var before := chain.cmds[..chain.count];
      chain.PushCmd(tokens[i]);
      assert chain.cmds[..chain.count] == before + (if tokens[i].Cmd? then [tokens[i].line] else []);
      i := i + 1;
    }
    assert i == e;
  }

  /** Reading token i of the segment adds its command line, if any, and
      stays within the segment's count of commands. */
  lemma SegmentLines(tokens: seq<ChainToken>, i: nat)
    requires |tokens| > 0 && i < EndAt(tokens, 1) < |tokens|
    ensures Lines(tokens[..i + 1]) == Lines(tokens[..i]) + (if tokens[i].Cmd? then [tokens[i].line] else [])
    ensures |Lines(tokens[..i + 1])| <= |Lines(Segment(tokens))|
  {
    assert tokens[..i + 1] == tokens[..i] + [tokens[i]];
    SnocFilters(tokens[..i], tokens[i]);
    SegmentPrefixLines(tokens, i + 1);
  }

  /** A prefix of the segment has no more commands than the segment. */
  lemma SegmentPrefixLines(tokens: seq<ChainToken>, n: nat)
    requires |tokens| > 0 && n <= EndAt(tokens, 1) < |tokens|
    ensures |Lines(tokens[..n])| <= |Lines(Segment(tokens))|
  {
    var seg := Segment(tokens);
    assert seg == tokens[..n] + seg[n..];
    PrefixFilters(tokens[..n], seg[n..]);
  }

  /** chain_build_from_tokens over the argument list `tokens` (the first
      token, then more tokens ending with END): false where the source exits;
      otherwise the commands in token order and the files of the IN and OUT
      tokens. */
  method BuildFromTokens(tokens: seq<ChainToken>) returns (ok: bool, chain: Chain)
    requires |tokens| > 0 && EndAt(tokens, 1) < |tokens|
    ensures ok <==> WellFormedChain(Segment(tokens))
    ensures ok ==> chain.count == chain.cmds.Length && chain.cmds[..] == Lines(Segment(tokens))
    ensures ok ==> chain.input == FileOf(Inputs(Segment(tokens)))
    ensures ok ==> chain.output == FileOf(Outputs(Segment(tokens)))
  {
    chain := new Chain();
    ok := FirstPass(chain, tokens);
    if !ok {
      return;
    }
    chain.cmds := new seq<seq<char>>[chain.count];
    chain.count := 0;
    SecondPass(chain, tokens);
  }

  /** The filters of a prefix are prefixes of the filters of the whole. */
  lemma {:induction false} PrefixFilters(p: seq<ChainToken>, q: seq<ChainToken>)
    ensures |Inputs(p)| <= |Inputs(p + q)| && Inputs(p) == Inputs(p + q)[..|Inputs(p)|]
    ensures |Outputs(p)| <= |Outputs(p + q)| && Outputs(p) == Outputs(p + q)[..|Outputs(p)|]
    ensures |Lines(p)| <= |Lines(p + q)|
    decreases |q|
  {
    if q == [] {
      assert p + q == p;
    } else {
      var n := |q| - 1;
      assert p + q == (p + q[..n]) + [q[n]];
      SnocFilters(p + q[..n], q[n]);
      PrefixFilters(p, q[..n]);
    }
  }
}
