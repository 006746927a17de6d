/** sv.h: non-owning string views. A view is modelled by the characters it
    covers; a function that advances the caller's view through a pointer
    returns the advanced view as an extra out-parameter. */
module Sv {
  import opened CTypes

  type View = seq<char>

  // ---------------------------------------------------------------------
  // Trimming

  /** Reference definition: `s` without its leading whitespace. */
  function TrimmedLeft(s: View): View {
    if s != [] && IsSpace(s[0]) then TrimmedLeft(s[1..]) else s
  }

  /** Reference definition: `s` without its trailing whitespace. */
  function TrimmedRight(s: View): View {
    if s != [] && IsSpace(s[|s| - 1]) then TrimmedRight(s[..|s| - 1]) else s
  }

  /** TrimmedLeft drops exactly a whitespace prefix and stops at the first
      non-whitespace character. */
  lemma {:induction false} TrimmedLeftShape(s: View)
    ensures |TrimmedLeft(s)| <= |s| && TrimmedLeft(s) == s[|s| - |TrimmedLeft(s)|..]
    ensures forall i :: 0 <= i < |s| - |TrimmedLeft(s)| ==> IsSpace(s[i])
    ensures TrimmedLeft(s) == [] || !IsSpace(TrimmedLeft(s)[0])
  {
    if s != [] && IsSpace(s[0]) {
      var r := s[1..];
      TrimmedLeftShape(r);
      var t := TrimmedLeft(r);
      assert TrimmedLeft(s) == t;
      assert r[|r| - |t|..] == s[|s| - |t|..];
      forall i | 0 <= i < |s| - |t|
        ensures IsSpace(s[i])
      {
        if i > 0 {
          assert s[i] == r[i - 1];
        }
      }
    }
  }

  /** TrimmedRight drops exactly a whitespace suffix and stops at the last
      non-whitespace character. */
  lemma {:induction false} TrimmedRightShape(s: View)
    ensures |TrimmedRight(s)| <= |s| && TrimmedRight(s) == s[..|TrimmedRight(s)|]
    ensures forall i :: |TrimmedRight(s)| <= i < |s| ==> IsSpace(s[i])
    ensures TrimmedRight(s) == [] || !IsSpace(TrimmedRight(s)[|TrimmedRight(s)| - 1])
  {
    if s != [] && IsSpace(s[|s| - 1]) {
      TrimmedRightShape(s[..|s| - 1]);
    }
  }

  /** Trimming twice changes nothing more. */
  lemma {:induction false} TrimmedLeftIdempotent(s: View)
    ensures TrimmedLeft(TrimmedLeft(s)) == TrimmedLeft(s)
  {
    TrimmedLeftShape(s);
  }

  /** sv_trim_left: skips whitespace from the front. */
  method TrimLeft(sv: View) returns (r: View)
    ensures r == TrimmedLeft(sv)
  {
    var i := 0;
    while i < |sv| && IsSpace(sv[i])
      invariant 0 <= i <= |sv|
      invariant TrimmedLeft(sv[i..]) == TrimmedLeft(sv)
    {
      assert sv[i..][1..] == sv[i + 1..];
      i := i + 1;
    }
    r := sv[i..];
  }

  /** sv_trim_right: skips whitespace from the back. */
  method TrimRight(sv: View) returns (r: View)
    ensures r == TrimmedRight(sv)
  {
    var i := 0;
    assert sv[..|sv|] == sv;
    while i < |sv| && IsSpace(sv[|sv| - 1 - i])
      invariant 0 <= i <= |sv|
      invariant TrimmedRight(sv[..|sv| - i]) == TrimmedRight(sv)
    {
      assert sv[..|sv| - i][..|sv| - i - 1] == sv[..|sv| - (i + 1)];
      i := i + 1;
    }
    r := sv[..|sv| - i];
  }

  /** sv_trim: trim_right after trim_left. */
  method Trim(sv: View) returns (r: View)
    ensures r == TrimmedRight(TrimmedLeft(sv))
    ensures r == [] || (!IsSpace(r[0]) && !IsSpace(r[|r| - 1]))
  {
    var l := TrimLeft(sv);
    r := TrimRight(l);
    TrimmedLeftShape(sv);
    TrimmedRightShape(l);
    if r != [] {
      assert r[0] == l[0];
    }
  }

  // ---------------------------------------------------------------------
  // Chopping

  /** sv_chop_left: the first min(n, count) characters are cut off and
      returned; the view keeps the rest. */
  method ChopLeft(sv: View, n: nat) returns (chunk: View, rest: View)
    ensures |chunk| == Min(n, |sv|)
    ensures chunk + rest == sv
  {
    var m := n;
    if m > |sv| {
      m := |sv|;
    }
    chunk := sv[..m];
    rest := sv[m..];
  }

  /** sv_chop_right: the last min(n, count) characters are cut off and
      returned; the view keeps the front. */
  method ChopRight(sv: View, n: nat) returns (chunk: View, rest: View)
    ensures |chunk| == Min(n, |sv|)
    ensures rest + chunk == sv
  {
    var m := n;
    if m > |sv| {
      m := |sv|;
    }
    chunk := sv[|sv| - m..];
    rest := sv[..|sv| - m];
  }

  /** sv_index_of: the position of the first `c`, when there is one (the
      out-pointer is written only then). */
  method IndexOf(sv: View, c: char) returns (index: Option<nat>)
    ensures index.Some? <==> c in sv
    ensures index.Some? ==> index.value < |sv| && sv[index.value] == c && c !in sv[..index.value]
  {
    var i := 0;
    while i < |sv| && sv[i] != c
      invariant 0 <= i <= |sv|
      invariant c !in sv[..i]
    {
      i := i + 1;
    }
    if i < |sv| {
      return Some(i);
    }
    assert sv[..i] == sv;
    return None;
  }

  /** sv_try_chop_by_delim: on success the chunk before the first `delim`
      is returned and the view skips past that delimiter; without a
      delimiter the view is left as it was. */
  method TryChopByDelim(sv: View, delim: char) returns (chunk: Option<View>, rest: View)
    ensures chunk.Some? <==> delim in sv
    ensures chunk.Some? ==> sv == chunk.value + [delim] + rest && delim !in chunk.value
    ensures chunk.None? ==> rest == sv
  {
    var i := 0;
    while i < |sv| && sv[i] != delim
      invariant 0 <= i <= |sv|
      invariant delim !in sv[..i]
    {
      i := i + 1;
    }
    if i < |sv| {
      assert sv == sv[..i] + [delim] + sv[i + 1..];
      return Some(sv[..i]), sv[i + 1..];
    }
    assert sv[..i] == sv;
    return None, sv;
  }

  /** sv_chop_by_delim: the longest delimiter-free prefix is returned; the
      view skips it and the delimiter, or becomes empty when there is no
      delimiter. */
  method ChopByDelim(sv: View, delim: char) returns (chunk: View, rest: View)
    ensures delim !in chunk
    ensures delim in sv ==> sv == chunk + [delim] + rest
    ensures delim !in sv ==> chunk == sv && rest == []
  {
    var i := 0;
    while i < |sv| && sv[i] != delim
      invariant 0 <= i <= |sv|
      invariant delim !in sv[..i]
    {
      i := i + 1;
    }
    chunk := sv[..i];
    if i < |sv| {
      assert sv == sv[..i] + [delim] + sv[i + 1..];
      rest := sv[i + 1..];
    } else {
      assert sv[..i] == sv;
      rest := sv[i..];
    }
  }

  /** `d` occurs in `s` starting at position k. */
  predicate OccursAt(s: View, d: View, k: nat) {
    k + |d| <= |s| && s[k..k + |d|] == d
  }

  /** Reference definition of the position where sv.h's sv_chop_by_sv loop
      stops: the first k with k + |d| < |s| at which `d` occurs, otherwise
      |s| - |d| (or 0 when `d` is longer than `s`). The loop never tests
      the window that ends at the end of the view. */
  function AsWrittenStop(s: View, d: View, k: nat): (r: nat)
    requires k <= |s|
    ensures k <= r <= |s|
    decreases |s| - k
  {
    if k + |d| < |s| && !OccursAt(s, d, k) then AsWrittenStop(s, d, k + 1) else k
  }

  /** sv_chop_by_sv as written: the chunk and the advanced view, or None
      for the view when its count wrapped around below zero. */
  function ChopBySvAsWrittenSpec(s: View, d: View): (View, Option<View>) {
    var i := AsWrittenStop(s, d, 0);
    var chunk := if i + |d| == |s| then s else s[..i];
    var rest := if i + |d| <= |s| then Some(s[i + |d|..]) else None;
    (chunk, rest)
  }

  /** sv_chop_by_sv exactly as written, with the size_t subtraction that
      wraps when the delimiter is longer than the view. */
  method ChopBySvAsWritten(sv: View, d: View) returns (chunk: View, rest: Option<View>)
    ensures (chunk, rest) == ChopBySvAsWrittenSpec(sv, d)
  {
    var i := 0;
    while i + |d| < |sv| && sv[i..i + |d|] != d
      invariant 0 <= i <= |sv|
      invariant AsWrittenStop(sv, d, i) == AsWrittenStop(sv, d, 0)
    {
      i := i + 1;
    }
    chunk := sv[..i];
    if i + |d| == |sv| {
      chunk := sv[..i + |d|];
      assert chunk == sv;
    }
    if i + |d| <= |sv| {
      rest := Some(sv[i + |d|..]);
    } else {
      rest := None;
    }
  }

  /** A delimiter at the very end of the view is not recognised: chopping
      "ab," by "," returns the whole "ab," although "," occurs in it. */
  lemma ChopBySvMissesFinalDelimiter()
    ensures OccursAt("ab,", ",", 2)
    ensures ChopBySvAsWrittenSpec("ab,", ",") == ("ab,", Some(""))
  {
    var s: View := "ab,";
    assert !OccursAt(s, ",", 0) by { assert s[0..1] == "a"; }
    assert !OccursAt(s, ",", 1) by { assert s[1..2] == "b"; }
    assert AsWrittenStop(s, ",", 2) == 2;
    assert AsWrittenStop(s, ",", 0) == 2;
    assert s[3..] == "";
  }

  /** A delimiter longer than the view makes the view's count wrap around:
      chopping "a" by "ab" leaves no valid view. */
  lemma ChopBySvShortViewWraps()
    ensures ChopBySvAsWrittenSpec("a", "ab").1 == None
  {
    assert AsWrittenStop("a", "ab", 0) == 0;
  }

  /** Reference definition of the intended stop: the first position at or
      after k where `d` occurs, or |s| + 1 when there is none. */
  function FirstOccurrence(s: View, d: View, k: nat): (r: nat)
    requires k <= |s| + 1
    ensures k <= r <= |s| + 1
    ensures r <= |s| ==> OccursAt(s, d, r)
    ensures forall j :: k <= j < r ==> !OccursAt(s, d, j)
    decreases |s| + 1 - k
  {
    if k + |d| > |s| then |s| + 1
    else if OccursAt(s, d, k) then k
    else FirstOccurrence(s, d, k + 1)
  }

  /** sv_chop_by_sv as evidently intended: the chunk before the first
      occurrence of `d` and the view after it, or the whole view and an
      empty view when `d` does not occur. */
  method ChopBySv(sv: View, d: View) returns (chunk: View, rest: View)
    ensures forall k :: 0 <= k < |chunk| ==> !OccursAt(sv, d, k)
    ensures (exists k :: OccursAt(sv, d, k)) ==> sv == chunk + d + rest
    ensures (forall k :: !OccursAt(sv, d, k)) ==> chunk == sv && rest == []
  {
    var i := 0;
    while i + |d| <= |sv| && sv[i..i + |d|] != d
      invariant 0 <= i <= |sv| + 1
      invariant forall j :: 0 <= j < i ==> !OccursAt(sv, d, j)
    {
      i := i + 1;
    }
    if i + |d| <= |sv| {
      chunk := sv[..i];
      rest := sv[i + |d|..];
      assert sv == chunk + sv[i..i + |d|] + rest;
      assert OccursAt(sv, d, i);
    } else {
      forall k: nat ensures !OccursAt(sv, d, k) {
        if k >= i {
          assert k + |d| > |sv|;
        }
      }
      chunk := sv;
      rest := [];
    }
  }

  // ---------------------------------------------------------------------
  // Comparisons

  /** sv_eq: equal counts and equal bytes (memcmp). */
  function Eq(a: View, b: View): (r: bool)
    ensures r <==> a == b
  {
    if |a| != |b| then false else forall i :: 0 <= i < |a| ==> a[i] == b[i]
  }

  /** sv_starts_with: false when the prefix is longer than the view, else
      compares the view's first characters. */
  function StartsWith(sv: View, prefix: View): (r: bool)
    ensures r <==> |prefix| <= |sv| && sv[..|prefix|] == prefix
  {
    if |prefix| <= |sv| then Eq(prefix, sv[..|prefix|]) else false
  }

  /** sv_ends_with: false when the suffix is longer than the view, else
      compares the view's last characters. */
  function EndsWith(sv: View, suffix: View): (r: bool)
    ensures r <==> |suffix| <= |sv| && sv[|sv| - |suffix|..] == suffix
  {
    if |suffix| <= |sv| then Eq(suffix, sv[|sv| - |suffix|..]) else false
  }

  /** A view starts with `p` exactly when it is `p` followed by something. */
  lemma StartsWithIsPrefix(sv: View, p: View)
    ensures StartsWith(sv, p) <==> exists rest :: sv == p + rest
  {
    if StartsWith(sv, p) {
      assert sv == p + sv[|p|..];
    }
    if exists rest :: sv == p + rest {
      var rest :| sv == p + rest;
      assert sv[..|p|] == p;
    }
  }

  /** A view ends with `q` exactly when it is something followed by `q`. */
  lemma EndsWithIsSuffix(sv: View, q: View)
    ensures EndsWith(sv, q) <==> exists front :: sv == front + q
  {
    if EndsWith(sv, q) {
      assert sv == sv[..|sv| - |q|] + q;
    }
    if exists front :: sv == front + q {
      var front :| sv == front + q;
      assert sv[|sv| - |q|..] == q;
    }
  }

  /** The case folding of sv_eq_ignorecase: only 'A'..'Z' become lower case. */
  function FoldCase(c: char): (r: char)
    ensures 'A' <= c <= 'Z' ==> 'a' <= r <= 'z' && r as int == c as int + 32
    ensures !('A' <= c <= 'Z') ==> r == c
  {
    if 'A' <= c <= 'Z' then (c as int + 32) as char else c
  }

  function FoldAll(s: View): (r: View)
    ensures |r| == |s| && forall i :: 0 <= i < |s| ==> r[i] == FoldCase(s[i])
  {
    if s == [] then [] else [FoldCase(s[0])] + FoldAll(s[1..])
  }

  /** Reference definition: equal after folding 'A'..'Z'. */
  predicate EqualIgnoringCase(a: View, b: View) {
    FoldAll(a) == FoldAll(b)
  }

  /** sv_eq_ignorecase: compares counts, then folds and compares each pair. */
  method EqIgnoreCase(a: View, b: View) returns (r: bool)
    ensures r == EqualIgnoringCase(a, b)
  {
    if |a| != |b| {
      return false;
    }
    var i := 0;
    while i < |a|
      invariant 0 <= i <= |a|
      invariant forall k :: 0 <= k < i ==> FoldCase(a[k]) == FoldCase(b[k])
    {
      var x := if 'A' <= a[i] <= 'Z' then (a[i] as int + 32) as char else a[i];
      var y := if 'A' <= b[i] <= 'Z' then (b[i] as int + 32) as char else b[i];
      if x != y {
        assert FoldAll(a)[i] != FoldAll(b)[i];
        return false;
      }
      i := i + 1;
    }
    assert FoldAll(a) == FoldAll(b);
    return true;
  }

  /** Case-insensitive equality is an equivalence that contains equality,
      and it folds only ASCII letters. */
  lemma EqualIgnoringCaseLaws(a: View, b: View, c: View)
    ensures EqualIgnoringCase(a, a)
    ensures EqualIgnoringCase(a, b) ==> EqualIgnoringCase(b, a)
    ensures EqualIgnoringCase(a, b) && EqualIgnoringCase(b, c) ==> EqualIgnoringCase(a, c)
    ensures EqualIgnoringCase("OLIVE", "olive")
    ensures !EqualIgnoringCase("[", "{")
  {
    assert FoldAll("OLIVE") == "olive";
    assert FoldAll("[") == "[";
    assert FoldAll("{") == "{";
  }

  // ---------------------------------------------------------------------
  // Numbers

  /** Length of the run of decimal digits at the front of `s`. */
  function DigitRun(s: View): (n: nat)
    ensures n <= |s|
    ensures forall i :: 0 <= i < n ==> IsDigit(s[i])
    ensures n == |s| || !IsDigit(s[n])
  {
    if s != [] && IsDigit(s[0]) then 1 + DigitRun(s[1..]) else 0
  }

  /** The value of a string of decimal digits, most significant first. */
  function Decimal(s: View): nat
    requires forall i :: 0 <= i < |s| ==> IsDigit(s[i])
  {
    if s == [] then 0 else Decimal(s[..|s| - 1]) * 10 + DigitValue(s[|s| - 1])
  }

  lemma ModStep(a: int, d: int, m: int)
    requires m > 0
    ensures ((a % m) * 10 + d) % m == (a * 10 + d) % m
  {
    var q := a / m;
    assert a == q * m + a % m;
    assert a * 10 + d == (a % m) * 10 + d + (q * 10) * m;
    ModAddMultiple((a % m) * 10 + d, q * 10, m);
  }

  lemma ModAddMultiple(x: int, k: int, m: int)
    requires m > 0
    ensures (x + k * m) % m == x % m
  {
    var r := x % m;
    var q := x / m;
    assert x == q * m + r;
    assert x + k * m == (q + k) * m + r;
    DivModUnique(x + k * m, m, q + k, r);
  }

  /** sv_to_u64: the leading digit run read in base 10, modulo 2^64. */
  method ToU64(sv: View) returns (r: nat)
    ensures r == Decimal(sv[..DigitRun(sv)]) % U64_MODULUS
  {
    var result := 0;
    var i := 0;
    while i < |sv| && IsDigit(sv[i])
      invariant 0 <= i <= DigitRun(sv)
      invariant 0 <= result < U64_MODULUS
      invariant result == Decimal(sv[..i]) % U64_MODULUS
    {
      assert sv[..i + 1][..i] == sv[..i];
      ModStep(Decimal(sv[..i]), DigitValue(sv[i]), U64_MODULUS);
      result := (result * 10 + sv[i] as int - '0' as int) % U64_MODULUS;
      i := i + 1;
    }
    r := result;
  }

  /** sv_chop_u64: the same value as sv_to_u64; the view loses exactly the
      digits read. */
  method ChopU64(sv: View) returns (value: nat, rest: View)
    ensures value == Decimal(sv[..DigitRun(sv)]) % U64_MODULUS
    ensures rest == sv[DigitRun(sv)..]
  {
    value := 0;
    rest := sv;
    while |rest| > 0 && IsDigit(rest[0])
      invariant 0 <= |sv| - |rest| <= DigitRun(sv)
      invariant rest == sv[|sv| - |rest|..]
      invariant 0 <= value < U64_MODULUS
      invariant value == Decimal(sv[..|sv| - |rest|]) % U64_MODULUS
    {
      var i := |sv| - |rest|;
      assert sv[..i + 1][..i] == sv[..i];
      ModStep(Decimal(sv[..i]), DigitValue(sv[i]), U64_MODULUS);
      value := (value * 10 + rest[0] as int - '0' as int) % U64_MODULUS;
      rest := rest[1..];
    }
  }

  // ---------------------------------------------------------------------
  // Predicate-driven chopping

  /** sv_chop_left_while: cuts off the longest prefix whose characters all
      satisfy `p`. */
  method ChopLeftWhile(sv: View, p: char -> bool) returns (chunk: View, rest: View)
    ensures chunk + rest == sv
    ensures forall i :: 0 <= i < |chunk| ==> p(chunk[i])
    ensures rest == [] || !p(rest[0])
  {
    var i := 0;
    while i < |sv| && p(sv[i])
      invariant 0 <= i <= |sv|
      invariant forall k :: 0 <= k < i ==> p(sv[k])
    {
      i := i + 1;
    }
    chunk, rest := ChopLeft(sv, i);
    assert chunk == sv[..i];
  }

  /** sv_take_left_while: the longest prefix whose characters all satisfy
      `p`; the view itself is not changed. */
  method TakeLeftWhile(sv: View, p: char -> bool) returns (r: View)
    ensures |r| <= |sv| && r == sv[..|r|]
    ensures forall i :: 0 <= i < |r| ==> p(r[i])
    ensures |r| == |sv| || !p(sv[|r|])
  {
    var i := 0;
    while i < |sv| && p(sv[i])
      invariant 0 <= i <= |sv|
      invariant forall k :: 0 <= k < i ==> p(sv[k])
    {
      i := i + 1;
    }
    r := sv[..i];
  }
}
