/** tools/obj2c.c: reads a Wavefront OBJ file (vertices, texture
    coordinates, normals and triangular faces) and writes a C header with
    the tables, leaving out the faces of deleted components. Float values
    are not part of the model: a vertex, texture coordinate or normal is
    represented by its position in its table. */
module Obj2c {
  import opened CTypes
  import Sv
  import Printf

  const VERTICES_PER_FACE: nat := 3
  const DA_INIT_CAPACITY: nat := 8192
  const INT_MAX: int := 0x7fff_ffff
  const INT_MIN: int := -0x8000_0000

  /** The three 0-based indices of a face's v, vt or vn part. */
  type Index3 = s: seq<int> | |s| == VERTICES_PER_FACE witness [0, 0, 0]

  datatype Face = Face(v: Index3, vt: Index3, vn: Index3)

  // ---------------------------------------------------------------------
  // context_realloc

  /** context_realloc: the old block when it is already large enough, else
      a new block that starts with the old contents. Sizes count elements
      rather than bytes; the arena never fails. */
  method ContextRealloc<T(0)>(oldp: array<T>, oldsz: nat, newsz: nat) returns (p: array<T>)
    requires oldsz <= oldp.Length
    ensures newsz <= oldsz ==> p == oldp
    ensures newsz > oldsz ==> fresh(p) && p.Length == newsz && p[..oldsz] == oldp[..oldsz]
  {
    if newsz <= oldsz {
      return oldp;
    }
    p := new T[newsz];
    forall i | 0 <= i < oldsz {
      p[i] := oldp[i];
    }
  }

  // ---------------------------------------------------------------------
  // strtol

  /** strtol(s, &end, 10) within the range of int: leading whitespace, an
      optional sign, then the digits; the value and how many characters
      end is past s, which is 0 (and the value 0) when no digit follows. */
  function StrToL(s: seq<char>): (r: (int, nat))
    ensures r.1 <= |s|
    ensures r.1 == 0 ==> r.0 == 0
  {
    Sv.TrimmedLeftShape(s);
    var t := Sv.TrimmedLeft(s);
    var sign := if t != [] && (t[0] == '-' || t[0] == '+') then 1 else 0;
    var u := t[sign..];
    var n := Sv.DigitRun(u);
    if n == 0 then (0, 0)
    else
      var magnitude: int := Sv.Decimal(u[..n]);
      var value := if sign == 1 && t[0] == '-' then -magnitude else magnitude;
      (value, |s| - |t| + sign + n)
  }

  lemma {:induction false} DigitRunOfDigits(a: seq<char>, rest: seq<char>)
    requires forall i :: 0 <= i < |a| ==> IsDigit(a[i])
    requires rest == [] || !IsDigit(rest[0])
    ensures Sv.DigitRun(a + rest) == |a|
  {
    if a != [] {
      assert (a + rest)[1..] == a[1..] + rest;
      DigitRunOfDigits(a[1..], rest);
    } else {
      assert a + rest == rest;
    }
  }

  /** strtol reads back what `%d` printed, and stops right after it. */
  lemma StrToLReadsDecimal(n: int, rest: seq<char>)
    requires rest == [] || !IsDigit(rest[0])
    ensures StrToL(Printf.SignedDecimal(n) + rest) == (n, |Printf.SignedDecimal(n)|)
  {
    var m: nat := if n < 0 then -n else n;
    var d := Printf.DecimalDigits(m);
    var s := Printf.SignedDecimal(n) + rest;
    var sign := if n < 0 then 1 else 0;
    SignedDecimalShape(n, rest);
    DigitRunOfDigits(d, rest);
    assert (d + rest)[..|d|] == d;
    Printf.DecimalRoundTrip(m);
    StrToLOfTrimmed(s, sign, |d|, m);
  }

  /** `%d` text starts with neither whitespace nor '+', and past its
      optional '-' come the digits of the magnitude. */
  lemma SignedDecimalShape(n: int, rest: seq<char>)
    ensures var s := Printf.SignedDecimal(n) + rest;
      var sign := if n < 0 then 1 else 0;
      Sv.TrimmedLeft(s) == s &&
      (sign == 1 <==> s != [] && (s[0] == '-' || s[0] == '+')) &&
      (n < 0 ==> s[0] == '-') &&
      s[sign..] == Printf.DecimalDigits(if n < 0 then -n else n) + rest
  {
    var s := Printf.SignedDecimal(n) + rest;
    assert !IsSpace(s[0]);
  }

  /** strtol on text with no leading whitespace, a sign of `sign`
      characters, then k > 0 digits whose value is m. */
  lemma StrToLOfTrimmed(s: seq<char>, sign: nat, k: nat, m: nat)
    requires Sv.TrimmedLeft(s) == s
    requires sign <= 1 && sign <= |s| && (sign == 1 <==> s != [] && (s[0] == '-' || s[0] == '+'))
    requires 0 < k && Sv.DigitRun(s[sign..]) == k && Sv.Decimal(s[sign..][..k]) == m
    ensures StrToL(s) == (if sign == 1 && s[0] == '-' then -(m as int) else m as int, sign + k)
  {
  }

  // ---------------------------------------------------------------------
  // parse_face_triple

  /** A vertex reference `v[/vt[/vn]]` read into 0-based indices. */
  datatype Triple = Triple(v: int, vt: int, vn: int)

  /** The index after an optional `/`: 0 when the `/` is absent, else
      strtol of what follows, minus 1. */
  function SlashPart(s: seq<char>): (r: (int, seq<char>))
    ensures |r.1| <= |s|
  {
    if s != [] && s[0] == '/' then
      var (x, n) := StrToL(s[1..]);
      (x - 1, s[1..][n..])
    else (0, s)
  }

  /** The length of the run of non-whitespace at the front of s. */
  function WordRun(s: seq<char>): (n: nat)
    ensures n <= |s|
    ensures forall i :: 0 <= i < n ==> !IsSpace(s[i])
    ensures n == |s| || IsSpace(s[n])
  {
    if s != [] && !IsSpace(s[0]) then 1 + WordRun(s[1..]) else 0
  }

  /** Reference definition of parse_face_triple: the triple and what is
      left of the line. */
  function FaceTriple(line: seq<char>): (r: (Triple, seq<char>))
    ensures r.1 == [] || IsSpace(r.1[0])
  {
    var t := Sv.TrimmedLeft(line);
    var (x, n) := StrToL(t);
    FaceTail(x - 1, t[n..])
  }

  /** What follows the vertex index: the optional `/vt` and `/vn` parts,
      then the rest of the word is skipped. */
  function FaceTail(v: int, s: seq<char>): (r: (Triple, seq<char>))
    ensures r.1 == [] || IsSpace(r.1[0])
  {
    var (vt, r1) := SlashPart(s);
    var (vn, r2) := SlashPart(r1);
    (Triple(v, vt, vn), r2[WordRun(r2)..])
  }

  /** parse_face_triple: reads one vertex reference off the line and
      widens [lf, hf] to include its vertex index. */
  method ParseFaceTriple(line: seq<char>, lf: int, hf: int) returns (rest: seq<char>, lf': int, hf': int, t: Triple)
    ensures (t, rest) == FaceTriple(line)
    ensures lf' == Min(lf, t.v) && hf' == Max(hf, t.v)
  {
    var l := Sv.TrimLeft(line);
    var r := StrToL(l);
    var v := r.0 - 1;
    lf', hf' := lf, hf;
    if lf' > v {
      lf' := v;
    }
    if hf' < v {
      hf' := v;
    }
    var chunk;
    chunk, l := Sv.ChopLeft(l, r.1);
    var vt, vn;
    vt, l := ReadSlashPart(l);
    vn, l := ReadSlashPart(l);
    l := SkipWord(l);
    rest := l;
    t := Triple(v, vt, vn);
  }

  /** One `if (line starts with '/')` block of parse_face_triple. */
  method ReadSlashPart(line: seq<char>) returns (x: int, rest: seq<char>)
    ensures (x, rest) == SlashPart(line)
  {
    x := 0;
    rest := line;
    if |rest| > 0 && rest[0] == '/' {
      var chunk;
      chunk, rest := Sv.ChopLeft(rest, 1);
      var r := StrToL(rest);
      x := r.0 - 1;
      chunk, rest := Sv.ChopLeft(rest, r.1);
    }
  }

  /** The closing loop of parse_face_triple: chops up to whitespace. */
  method SkipWord(line: seq<char>) returns (rest: seq<char>)
    ensures rest == line[WordRun(line)..]
  {
    rest := line;
    while |rest| > 0 && !IsSpace(rest[0])
      invariant |rest| <= |line| && rest == line[|line| - |rest|..]
      invariant forall i :: 0 <= i < |line| - |rest| ==> !IsSpace(line[i])
      decreases |rest|
    {
      var chunk;
      chunk, rest := Sv.ChopLeft(rest, 1);
    }
  }

  /** `/%d` reads back as the 0-based index, and stops after it. */
  lemma SlashPartReads(b: int, rest: seq<char>)
    requires rest == [] || !IsDigit(rest[0])
    ensures SlashPart("/" + Printf.SignedDecimal(b) + rest) == (b - 1, rest)
  {
    var db := Printf.SignedDecimal(b);
    var s := "/" + db + rest;
    assert s[1..] == db + rest;
    StrToLReadsDecimal(b, rest);
    assert s[1..][|db|..] == rest;
  }

  /** A line starting with `%d` reads that vertex index, minus 1. */
  lemma FaceTripleStart(a: int, tail: seq<char>)
    requires tail == [] || !IsDigit(tail[0])
    ensures FaceTriple(Printf.SignedDecimal(a) + tail) == FaceTail(a - 1, tail)
  {
    var da := Printf.SignedDecimal(a);
    var line := da + tail;
    assert !IsSpace(line[0]);
    assert Sv.TrimmedLeft(line) == line;
    StrToLReadsDecimal(a, tail);
    assert line[|da|..] == tail;
  }

  /** `v/vt/vn` as the file writes them (1-based) reads back as the 0-based
      indices, and the line continues at the following whitespace. */
  lemma FaceTripleReadsFull(a: int, b: int, c: int, rest: seq<char>)
    requires rest == [] || IsSpace(rest[0])
    ensures FaceTriple(Printf.SignedDecimal(a) + ("/" + Printf.SignedDecimal(b) + ("/" + Printf.SignedDecimal(c) + rest)))
      == (Triple(a - 1, b - 1, c - 1), rest)
  {
    var last := "/" + Printf.SignedDecimal(c) + rest;
    var tail := "/" + Printf.SignedDecimal(b) + last;
    FaceTripleStart(a, tail);
    SlashPartReads(b, last);
    SlashPartReads(c, rest);
    assert FaceTail(a - 1, tail) == (Triple(a - 1, b - 1, c - 1), rest[WordRun(rest)..]);
    assert WordRun(rest) == 0;
  }

  /** A bare `v` sets vt and vn to 0; in `v//vn` the empty vt reads as 0,
      so vt becomes -1. */
  lemma FaceTripleReadsPartial(a: int, c: int, rest: seq<char>)
    requires rest == [] || IsSpace(rest[0])
    ensures FaceTriple(Printf.SignedDecimal(a) + rest) == (Triple(a - 1, 0, 0), rest)
    ensures FaceTriple(Printf.SignedDecimal(a) + ("/" + ("/" + Printf.SignedDecimal(c) + rest))) == (Triple(a - 1, -1, c - 1), rest)
  {
    FaceTripleStart(a, rest);
    assert WordRun(rest) == 0;
    var last := "/" + Printf.SignedDecimal(c) + rest;
    var tail := "/" + last;
    FaceTripleStart(a, tail);
    EmptySlashPart(last);
    SlashPartReads(c, rest);
    assert FaceTail(a - 1, tail) == (Triple(a - 1, -1, c - 1), rest[WordRun(rest)..]);
  }

  /** `/` followed by something that is not a number gives index -1 and
      consumes just the `/`. */
  lemma EmptySlashPart(s: seq<char>)
    requires s != [] && !IsSpace(s[0]) && !IsDigit(s[0]) && s[0] != '-' && s[0] != '+'
    ensures SlashPart("/" + s) == (-1, s)
  {
    assert ("/" + s)[1..] == s;
    assert Sv.TrimmedLeft(s) == s;
  }

  // ---------------------------------------------------------------------
  // The line loop of main

  /** Where sv_chop_by_delim cuts: the first `d`, or the end. */
  function DelimIndex(s: seq<char>, d: char): (i: nat)
    ensures i <= |s| && d !in s[..i] && (i < |s| ==> s[i] == d)
  {
    if s == [] || s[0] == d then 0
    else
      var i := 1 + DelimIndex(s[1..], d);
      assert s[..i] == [s[0]] + s[1..][..i - 1];
      i
  }

  /** sv_chop_by_delim as a value: the chunk before the first `d` and what
      follows that `d` (nothing when there is none). */
  function ChopDelim(s: seq<char>, d: char): (r: (seq<char>, seq<char>))
    ensures |r.1| < |s| || s == []
  {
    var i := DelimIndex(s, d);
    (s[..i], if i < |s| then s[i + 1..] else [])
  }

  /** What Sv.ChopByDelim promises pins down ChopDelim. */
  lemma ChopDelimUnique(s: seq<char>, d: char, chunk: seq<char>, rest: seq<char>)
    requires d !in chunk
    requires d in s ==> s == chunk + [d] + rest
    requires d !in s ==> chunk == s && rest == []
    ensures (chunk, rest) == ChopDelim(s, d)
  {
    var i := DelimIndex(s, d);
    assert forall j :: 0 <= j < i ==> s[..i][j] == s[j];
    if d in s {
      assert s[|chunk|] == d;
      assert forall j :: 0 <= j < |chunk| ==> chunk[j] == s[j];
      assert i == |chunk|;
      assert s[..i] == chunk;
      assert s[i + 1..] == rest;
    } else {
      assert i == |s|;
      assert s[..i] == s;
    }
  }

  /** The lines main visits: chopped off the content at each '\n' while
      anything is left. */
  function SplitLines(content: seq<char>): seq<seq<char>>
    decreases |content|
  {
    if content == [] then []
    else
      var (line, rest) := ChopDelim(content, '\n');
      [line] + SplitLines(rest)
  }

  /** What the line loop builds: per vertex the faces that use it, the
      numbers of texture coordinates and normals, the faces, the range
      [lf, hf] of vertex indices seen and the line of the `o` entry. */
  datatype Obj = Obj(
    vertexFaces: seq<seq<nat>>,
    texcoords: nat,
    normals: nat,
    faces: seq<Face>,
    lf: int,
    hf: int,
    objectLine: Option<nat>)

  const EmptyObj: Obj := Obj([], 0, 0, [], INT_MAX, INT_MIN, None)

  /** Why main stops reading with status 1. A face naming a vertex that does
      not exist is undefined behaviour in C; here it is an error. */
  datatype ObjError =
    | UnknownKind(line: nat, kind: seq<char>)
    | SecondObject(line: nat, first: nat)
    | VertexOutOfRange(line: nat)

  /** Faces and per-vertex face lists agree: each face is in the list of
      each of its vertices, and each list names only faces that use the
      vertex. */
  predicate Linked(vf: seq<seq<nat>>, faces: seq<Face>) {
    (forall fi, k :: 0 <= fi < |faces| && 0 <= k < VERTICES_PER_FACE ==>
      0 <= faces[fi].v[k] < |vf| && fi in vf[faces[fi].v[k]]) &&
    (forall u, j :: 0 <= u < |vf| && 0 <= j < |vf[u]| ==>
      vf[u][j] < |faces| && u in faces[vf[u][j]].v)
  }

  /** da_append(&vertices.items[v].faces, fi) */
  function AddFace(vf: seq<seq<nat>>, v: nat, fi: nat): (r: seq<seq<nat>>)
    requires v < |vf|
    ensures |r| == |vf| && r[v] == vf[v] + [fi]
    ensures forall u :: 0 <= u < |vf| && u != v ==> r[u] == vf[u]
  {
    vf[v := vf[v] + [fi]]
  }

  /** make_face: the v, vt and vn indices of three vertex references. */
  function MakeFace(t1: Triple, t2: Triple, t3: Triple): Face {
    Face([t1.v, t2.v, t3.v], [t1.vt, t2.vt, t3.vt], [t1.vn, t2.vn, t3.vn])
  }

  /** An `f` line: three vertex references. */
  function FaceLine(obj: Obj, rest: seq<char>, n: nat): Result<Obj, ObjError> {
    var (t1, r1) := FaceTriple(rest);
    var (t2, r2) := FaceTriple(r1);
    var (t3, r3) := FaceTriple(r2);
    AddFaceToObj(obj, MakeFace(t1, t2, t3), n)
  }

  /** The face's index appended to the list of each of its vertices, then
      the face to the faces, and [lf, hf] widened; an error when a vertex
      does not exist. */
  function AddFaceToObj(obj: Obj, face: Face, n: nat): Result<Obj, ObjError> {
    var vf := obj.vertexFaces;
    var fi := |obj.faces|;
    if !(0 <= face.v[0] < |vf| && 0 <= face.v[1] < |vf| && 0 <= face.v[2] < |vf|) then Err(VertexOutOfRange(n))
    else Ok(obj.(
      vertexFaces := AddFace(AddFace(AddFace(vf, face.v[0], fi), face.v[1], fi), face.v[2], fi),
      faces := obj.faces + [face],
      lf := Min(Min(Min(obj.lf, face.v[0]), face.v[1]), face.v[2]),
      hf := Max(Max(Max(obj.hf, face.v[0]), face.v[1]), face.v[2])))
  }

  /** One line after sv_trim_left: skipped when empty or a comment, else
      dispatched on the word before the first space. */
  function ObjLine(obj: Obj, line: seq<char>, n: nat): Result<Obj, ObjError> {
    if line == [] || line[0] == '#' then Ok(obj)
    else
      var (kind, rest) := ChopDelim(line, ' ');
      if kind == "v" then Ok(obj.(vertexFaces := obj.vertexFaces + [[]]))
      else if kind == "f" then FaceLine(obj, rest, n)
      else if kind == "mtllib" || kind == "usemtl" || kind == "s" then Ok(obj)
      else if kind == "o" then
        (if obj.objectLine.Some? then Err(SecondObject(n, obj.objectLine.value)) else Ok(obj.(objectLine := Some(n))))
      else if kind == "vn" then Ok(obj.(normals := obj.normals + 1))
      else if kind == "vt" then Ok(obj.(texcoords := obj.texcoords + 1))
      else Err(UnknownKind(n, kind))
  }

  /** The line loop from line number n on. */
  function ParseLines(lines: seq<seq<char>>, obj: Obj, n: nat): Result<Obj, ObjError>
    decreases |lines|
  {
    if lines == [] then Ok(obj)
    else
      var r := ObjLine(obj, Sv.TrimmedLeft(lines[0]), n);
      if r.Err? then r else ParseLines(lines[1..], r.value, n + 1)
  }

  /** parse_face_triple followed by the da_append onto the vertex's
      face list; ok is false when the vertex does not exist. */
  method ReadFaceVertex(vf: seq<seq<nat>>, line: seq<char>, fi: nat, lf: int, hf: int)
    returns (ok: bool, vf': seq<seq<nat>>, rest: seq<char>, t: Triple, lf': int, hf': int)
    ensures (t, rest) == FaceTriple(line)
    ensures lf' == Min(lf, t.v) && hf' == Max(hf, t.v)
    ensures ok <==> 0 <= t.v < |vf|
    ensures ok ==> vf' == AddFace(vf, t.v, fi)
  {
    rest, lf', hf', t := ParseFaceTriple(line, lf, hf);
    ok := 0 <= t.v < |vf|;
    vf' := vf;
    if ok {
      vf' := vf[t.v := vf[t.v] + [fi]];
    }
  }

  /** The `f` branch of the line loop. */
  method ReadFace(obj: Obj, rest: seq<char>, n: nat) returns (r: Result<Obj, ObjError>)
    ensures r == FaceLine(obj, rest, n)
  {
    var fi := |obj.faces|;
    var ok, vf, line, t1, lf, hf := ReadFaceVertex(obj.vertexFaces, rest, fi, obj.lf, obj.hf);
    if !ok {
      return Err(VertexOutOfRange(n));
    }
    var t2, t3;
    ok, vf, line, t2, lf, hf := ReadFaceVertex(vf, line, fi, lf, hf);
    if !ok {
      return Err(VertexOutOfRange(n));
    }
    ok, vf, line, t3, lf, hf := ReadFaceVertex(vf, line, fi, lf, hf);
    if !ok {
      return Err(VertexOutOfRange(n));
    }
    var face := MakeFace(t1, t2, t3);
    r := Ok(obj.(vertexFaces := vf, faces := obj.faces + [face], lf := lf, hf := hf));
  }

  /** The body of the line loop for one trimmed line. */
  method ProcessLine(obj: Obj, line: seq<char>, n: nat) returns (r: Result<Obj, ObjError>)
    ensures r == ObjLine(obj, line, n)
  {
    if |line| == 0 || line[0] == '#' {
      return Ok(obj);
    }
    var kind, rest := Sv.ChopByDelim(line, ' ');
    ChopDelimUnique(line, ' ', kind, rest);
    if Sv.Eq(kind, "v") {
      r := Ok(obj.(vertexFaces := obj.vertexFaces + [[]]));
    } else if Sv.Eq(kind, "f") {
      r := ReadFace(obj, rest, n);
    } else if Sv.Eq(kind, "mtllib") || Sv.Eq(kind, "usemtl") {
      r := Ok(obj);
    } else if Sv.Eq(kind, "o") {
      if obj.objectLine.Some? {
        return Err(SecondObject(n, obj.objectLine.value));
      }
      r := Ok(obj.(objectLine := Some(n)));
    } else if Sv.Eq(kind, "s") {
      r := Ok(obj);
    } else if Sv.Eq(kind, "vn") {
      r := Ok(obj.(normals := obj.normals + 1));
    } else if Sv.Eq(kind, "vt") {
      r := Ok(obj.(texcoords := obj.texcoords + 1));
    } else {
      r := Err(UnknownKind(n, kind));
    }
  }

  /** main's loop over the lines of the file, numbered from 1. */
  method ParseObj(content: seq<char>) returns (r: Result<Obj, ObjError>)
    ensures r == ParseLines(SplitLines(content), EmptyObj, 1)
  {
    var rest := content;
    var obj := EmptyObj;
    var n := 1;
    while |rest| > 0
      invariant ParseLines(SplitLines(rest), obj, n) == ParseLines(SplitLines(content), EmptyObj, 1)
      decreases |rest|
    {
      var chunk, after := Sv.ChopByDelim(rest, '\n');
      ChopDelimUnique(rest, '\n', chunk, after);
      var line := Sv.TrimLeft(chunk);
      var step := ProcessLine(obj, line, n);
      if step.Err? {
        return step;
      }
      obj := step.value;
      rest := after;
      n := n + 1;
    }
    return Ok(obj);
  }

  // ---------------------------------------------------------------------
  // Faces and their vertices stay linked

  /** vf' is vf with entries fi appended to the lists of vertices in vs. */
  predicate Grown(vf: seq<seq<nat>>, vf': seq<seq<nat>>, fi: nat, vs: seq<int>) {
    |vf'| == |vf| &&
    (forall u :: 0 <= u < |vf| ==> |vf[u]| <= |vf'[u]| && vf'[u][..|vf[u]|] == vf[u]) &&
    (forall u, j :: 0 <= u < |vf| && |vf[u]| <= j < |vf'[u]| ==> vf'[u][j] == fi && u in vs)
  }

  lemma AddFaceGrows(vf: seq<seq<nat>>, v: nat, fi: nat)
    requires v < |vf|
    ensures Grown(vf, AddFace(vf, v, fi), fi, [v]) && fi in AddFace(vf, v, fi)[v]
  {
    var r := AddFace(vf, v, fi);
    assert r[v][|vf[v]|] == fi;
    assert r[v][..|vf[v]|] == vf[v];
  }

  lemma GrownTrans(vf1: seq<seq<nat>>, vf2: seq<seq<nat>>, vf3: seq<seq<nat>>, fi: nat, vs: seq<int>, ws: seq<int>)
    requires Grown(vf1, vf2, fi, vs) && Grown(vf2, vf3, fi, ws)
    ensures Grown(vf1, vf3, fi, vs + ws)
    ensures forall u, x :: 0 <= u < |vf2| && x in vf2[u] ==> x in vf3[u]
  {
    forall u, x | 0 <= u < |vf2| && x in vf2[u]
      ensures x in vf3[u]
    {
      var j :| 0 <= j < |vf2[u]| && vf2[u][j] == x;
      assert vf3[u][..|vf2[u]|][j] == x;
    }
    forall u | 0 <= u < |vf1|
      ensures |vf1[u]| <= |vf3[u]| && vf3[u][..|vf1[u]|] == vf1[u]
    {
      assert vf3[u][..|vf1[u]|] == vf3[u][..|vf2[u]|][..|vf1[u]|];
    }
    forall u, j | 0 <= u < |vf1| && |vf1[u]| <= j < |vf3[u]|
      ensures vf3[u][j] == fi && u in vs + ws
    {
      if j >= |vf2[u]| {
        assert vf3[u][j] == fi && u in ws;
      } else {
        assert vf3[u][j] == vf3[u][..|vf2[u]|][j];
        assert vf2[u][j] == fi && u in vs;
      }
    }
  }

  /** Adding the new face fi to the lists of its vertices, and then to the
      faces, keeps everything linked. */
  lemma NewFaceKeepsLinked(vf0: seq<seq<nat>>, faces: seq<Face>, vf: seq<seq<nat>>, face: Face)
    requires Linked(vf0, faces)
    requires Grown(vf0, vf, |faces|, face.v)
    requires forall k :: 0 <= k < VERTICES_PER_FACE ==> 0 <= face.v[k] < |vf| && |faces| in vf[face.v[k]]
    ensures Linked(vf, faces + [face])
  {
    var fi := |faces|;
    var faces' := faces + [face];
    forall f, k | 0 <= f < |faces'| && 0 <= k < VERTICES_PER_FACE
      ensures 0 <= faces'[f].v[k] < |vf| && f in vf[faces'[f].v[k]]
    {
      if f < fi {
        var u := faces[f].v[k];
        var j :| 0 <= j < |vf0[u]| && vf0[u][j] == f;
        assert vf[u][..|vf0[u]|][j] == f;
      }
    }
    forall u, j | 0 <= u < |vf| && 0 <= j < |vf[u]|
      ensures vf[u][j] < |faces'| && u in faces'[vf[u][j]].v
    {
      if j < |vf0[u]| {
        assert vf[u][j] == vf[u][..|vf0[u]|][j] == vf0[u][j];
        assert faces'[vf0[u][j]] == faces[vf0[u][j]];
      } else {
        assert vf[u][j] == fi && u in face.v;
      }
    }
  }

  /** The three appends of an `f` line. */
  lemma ThreeAdds(vf0: seq<seq<nat>>, v1: nat, v2: nat, v3: nat, fi: nat)
    requires v1 < |vf0| && v2 < |vf0| && v3 < |vf0|
    ensures var vf := AddFace(AddFace(AddFace(vf0, v1, fi), v2, fi), v3, fi);
      Grown(vf0, vf, fi, [v1, v2, v3]) && fi in vf[v1] && fi in vf[v2] && fi in vf[v3]
  {
    var a := AddFace(vf0, v1, fi);
    var b := AddFace(a, v2, fi);
    var c := AddFace(b, v3, fi);
    AddFaceGrows(vf0, v1, fi);
    AddFaceGrows(a, v2, fi);
    AddFaceGrows(b, v3, fi);
    GrownTrans(vf0, a, b, fi, [v1], [v2]);
    GrownTrans(vf0, b, c, fi, [v1, v2], [v3]);
    GrownTrans(a, b, c, fi, [v2], [v3]);
    assert [v1] + [v2] == [v1, v2];
    assert [v1, v2] + [v3] == [v1, v2, v3];
  }

  /** The face appended after the three appends keeps everything linked. */
  lemma AddedFaceKeepsLinked(vf0: seq<seq<nat>>, faces: seq<Face>, face: Face)
    requires Linked(vf0, faces)
    requires forall k :: 0 <= k < VERTICES_PER_FACE ==> 0 <= face.v[k] < |vf0|
    ensures Linked(AddFace(AddFace(AddFace(vf0, face.v[0], |faces|), face.v[1], |faces|), face.v[2], |faces|), faces + [face])
  {
    var fi := |faces|;
    ThreeAdds(vf0, face.v[0], face.v[1], face.v[2], fi);
    assert face.v == [face.v[0], face.v[1], face.v[2]];
    NewFaceKeepsLinked(vf0, faces, AddFace(AddFace(AddFace(vf0, face.v[0], fi), face.v[1], fi), face.v[2], fi), face);
  }

  /** Every line keeps faces and face lists linked. */
  lemma ObjLineKeepsLinked(obj: Obj, line: seq<char>, n: nat)
    requires Linked(obj.vertexFaces, obj.faces) && ObjLine(obj, line, n).Ok?
    ensures Linked(ObjLine(obj, line, n).value.vertexFaces, ObjLine(obj, line, n).value.faces)
  {
    if line != [] && line[0] != '#' {
      var (kind, rest) := ChopDelim(line, ' ');
      if kind == "v" {
        NewVertexKeepsLinked(obj.vertexFaces, obj.faces);
      } else if kind == "f" {
        FaceLineKeepsLinked(obj, rest, n);
      }
    }
  }

  /** A new vertex has no faces. */
  lemma NewVertexKeepsLinked(vf: seq<seq<nat>>, faces: seq<Face>)
    requires Linked(vf, faces)
    ensures Linked(vf + [[]], faces)
  {
    var vf' := vf + [[]];
    assert forall u :: 0 <= u < |vf| ==> vf'[u] == vf[u];
  }

  lemma FaceLineKeepsLinked(obj: Obj, rest: seq<char>, n: nat)
    requires Linked(obj.vertexFaces, obj.faces) && FaceLine(obj, rest, n).Ok?
    ensures Linked(FaceLine(obj, rest, n).value.vertexFaces, FaceLine(obj, rest, n).value.faces)
  {
    var (t1, r1) := FaceTriple(rest);
    var (t2, r2) := FaceTriple(r1);
    var (t3, r3) := FaceTriple(r2);
    assert FaceLine(obj, rest, n) == AddFaceToObj(obj, MakeFace(t1, t2, t3), n);
    AddFaceToObjKeepsLinked(obj, MakeFace(t1, t2, t3), n);
  }

  lemma AddFaceToObjKeepsLinked(obj: Obj, face: Face, n: nat)
    requires Linked(obj.vertexFaces, obj.faces) && AddFaceToObj(obj, face, n).Ok?
    ensures Linked(AddFaceToObj(obj, face, n).value.vertexFaces, AddFaceToObj(obj, face, n).value.faces)
  {
    AddedFaceKeepsLinked(obj.vertexFaces, obj.faces, face);
  }

  /** Whatever the file, a successful read leaves every face in the list
      of each of its three vertices, and every list naming only faces that
      use the vertex. */
  lemma {:induction false} ParseLinesKeepsLinked(lines: seq<seq<char>>, obj: Obj, n: nat)
    requires Linked(obj.vertexFaces, obj.faces) && ParseLines(lines, obj, n).Ok?
    ensures Linked(ParseLines(lines, obj, n).value.vertexFaces, ParseLines(lines, obj, n).value.faces)
    decreases |lines|
  {
    if lines != [] {
      var line := Sv.TrimmedLeft(lines[0]);
      ObjLineKeepsLinked(obj, line, n);
      ParseLinesKeepsLinked(lines[1..], ObjLine(obj, line, n).value, n + 1);
    }
  }

  /** Blank and comment lines change nothing; an unknown kind and a second
      `o` stop the loop. */
  lemma ObjLineOutcomes(obj: Obj, n: nat)
    ensures ObjLine(obj, "", n) == Ok(obj)
    ensures ObjLine(obj, "# a comment", n) == Ok(obj)
    ensures ObjLine(obj, "g group", n) == Err(UnknownKind(n, "g"))
    ensures obj.objectLine.Some? ==> ObjLine(obj, "o cube", n) == Err(SecondObject(n, obj.objectLine.value))
    ensures obj.objectLine.None? ==> ObjLine(obj, "o cube", n) == Ok(obj.(objectLine := Some(n)))
    ensures ObjLine(obj, "vt 0.5 0.5", n) == Ok(obj.(texcoords := obj.texcoords + 1))
  {
    UnknownKindLine(obj, n);
    ObjectLine(obj, n);
    TexcoordLine(obj, n);
  }

  lemma UnknownKindLine(obj: Obj, n: nat)
    ensures ObjLine(obj, "g group", n) == Err(UnknownKind(n, "g"))
  {
    assert DelimIndex("g group", ' ') == 1;
    assert "g group"[..1] == "g";
  }

  lemma ObjectLine(obj: Obj, n: nat)
    ensures obj.objectLine.Some? ==> ObjLine(obj, "o cube", n) == Err(SecondObject(n, obj.objectLine.value))
    ensures obj.objectLine.None? ==> ObjLine(obj, "o cube", n) == Ok(obj.(objectLine := Some(n)))
  {
    assert DelimIndex("o cube", ' ') == 1;
    assert "o cube"[..1] == "o";
  }

  lemma TexcoordLine(obj: Obj, n: nat)
    ensures ObjLine(obj, "vt 0.5 0.5", n) == Ok(obj.(texcoords := obj.texcoords + 1))
  {
    assert DelimIndex("vt 0.5 0.5", ' ') == 2;
    assert "vt 0.5 0.5"[..2] == "vt";
  }

  // ---------------------------------------------------------------------
  // generate_code

  /** Every vertex index of every face names a vertex. */
  predicate FacesInRange(faces: seq<Face>, vertexCount: nat) {
    forall fi, k :: 0 <= fi < |faces| && 0 <= k < VERTICES_PER_FACE ==> 0 <= faces[fi].v[k] < vertexCount
  }

  /** Some vertex of the face belongs to a deleted component. */
  predicate Deleted(components: seq<int>, face: Face, deleted: seq<int>)
    requires forall k :: 0 <= k < VERTICES_PER_FACE ==> 0 <= face.v[k] < |components|
  {
    exists k :: 0 <= k < VERTICES_PER_FACE && components[face.v[k]] in deleted
  }

  /** is_deleted_face: searches the deleted components for the component
      of each vertex in turn. */
  method IsDeletedFace(components: seq<int>, face: Face, deleted: seq<int>) returns (r: bool)
    requires forall k :: 0 <= k < VERTICES_PER_FACE ==> 0 <= face.v[k] < |components|
    ensures r == Deleted(components, face, deleted)
  {
    var i := 0;
    while i < VERTICES_PER_FACE
      invariant 0 <= i <= VERTICES_PER_FACE
      invariant forall k :: 0 <= k < i ==> components[face.v[k]] !in deleted
    {
      var j := 0;
      while j < |deleted|
        invariant 0 <= j <= |deleted|
        invariant forall m :: 0 <= m < j ==> components[face.v[i]] != deleted[m]
      {
        if components[face.v[i]] == deleted[j] {
          return true;
        }
        j := j + 1;
      }
      i := i + 1;
    }
    return false;
  }

  /** The faces generate_code keeps, in their original order. */
  function Visible(components: seq<int>, faces: seq<Face>, deleted: seq<int>): seq<Face>
    requires FacesInRange(faces, |components|)
  {
    if faces == [] then []
    else
      var f := faces[|faces| - 1];
      Visible(components, faces[..|faces| - 1], deleted) + (if Deleted(components, f, deleted) then [] else [f])
  }

  /** The visible faces are exactly the faces without a deleted vertex,
      and there are no more of them than faces. */
  lemma {:induction false} VisibleLaws(components: seq<int>, faces: seq<Face>, deleted: seq<int>)
    requires FacesInRange(faces, |components|)
    ensures |Visible(components, faces, deleted)| <= |faces|
    ensures forall f :: f in Visible(components, faces, deleted) <==> f in faces && !Deleted(components, f, deleted)
    ensures deleted == [] ==> Visible(components, faces, deleted) == faces
  {
    if faces != [] {
      var p := faces[..|faces| - 1];
      VisibleLaws(components, p, deleted);
      assert faces == p + [faces[|faces| - 1]];
    }
  }

  /** The three float tables. */
  datatype Table = Vertices | TexCoords | Normals

  function TableName(t: Table): seq<char> {
    match t
    case Vertices => "vertices"
    case TexCoords => "texcoords"
    case Normals => "normals"
  }

  function TableWidth(t: Table): seq<char> {
    if t == TexCoords then "2" else "3"
  }

  /** One fprintf of generate_code: literal text, or the `%f` row of
      entry i of a float table. */
  datatype Out = Text(s: seq<char>) | Row(table: Table, index: nat)

  function FloatRows(t: Table, n: nat): (out: seq<Out>)
    ensures |out| == n && forall i :: 0 <= i < n ==> out[i] == Row(t, i)
  {
    if n == 0 then [] else FloatRows(t, n - 1) + [Row(t, n - 1)]
  }

  /** A float table: its count, then its rows, or a one-element zero array
      when it is empty. */
  function FloatTable(t: Table, n: nat): seq<Out> {
    [Text("#define " + TableName(t) + "_count " + Printf.DecimalDigits(n) + "\n")] +
    if n == 0 then [Text("static const float " + TableName(t) + "[1][" + TableWidth(t) + "] = {0};\n")]
    else [Text("static const float " + TableName(t) + "[][" + TableWidth(t) + "] = {\n")] + FloatRows(t, n) + [Text("};\n")]
  }

  /** The integers in `%d` separated by ", ". */
  function Joined(ns: seq<int>): seq<char> {
    if ns == [] then []
    else if |ns| == 1 then Printf.SignedDecimal(ns[0])
    else Joined(ns[..|ns| - 1]) + ", " + Printf.SignedDecimal(ns[|ns| - 1])
  }

  /** `    {v0, v1, v2, vt0, vt1, vt2, vn0, vn1, vn2},` */
  function FaceText(f: Face): seq<char> {
    "    {" + Joined(f.v + f.vt + f.vn) + "},\n"
  }

  function FaceRows(faces: seq<Face>): (out: seq<Out>)
    ensures |out| == |faces|
    ensures forall i :: 0 <= i < |faces| ==> out[i] == Text(FaceText(faces[i]))
  {
    if faces == [] then [] else FaceRows(faces[..|faces| - 1]) + [Text(FaceText(faces[|faces| - 1]))]
  }

  /** The face table: the number of visible faces, then their rows, or a
      one-element zero array when none is visible. */
  function FaceTable(visible: seq<Face>): seq<Out> {
    [Text("#define faces_count " + Printf.DecimalDigits(|visible|) + "\n")] +
    if visible == [] then [Text("static const int faces[1][9] = {0};\n")]
    else [Text("static const int faces[" + Printf.DecimalDigits(|visible|) + "][9] = {\n")] + FaceRows(visible) + [Text("};\n")]
  }

  /** The whole header generate_code writes. */
  function ObjHeader(vertexCount: nat, texcoords: nat, normals: nat, visible: seq<Face>): seq<Out> {
    [Text("#ifndef OBJ_H_\n"), Text("#define OBJ_H_\n")] +
    FloatTable(Vertices, vertexCount) + FloatTable(TexCoords, texcoords) + FloatTable(Normals, normals) +
    FaceTable(visible) +
    [Text("#endif // OBJ_H_\n")]
  }

  /** One of the three float-table blocks of generate_code. */
  method EmitFloatTable(t: Table, n: nat) returns (out: seq<Out>)
    ensures out == FloatTable(t, n)
  {
    out := [Text("#define " + TableName(t) + "_count " + Printf.DecimalDigits(n) + "\n")];
    if n == 0 {
      out := out + [Text("static const float " + TableName(t) + "[1][" + TableWidth(t) + "] = {0};\n")];
      return;
    }
    var rows := [];
    var i := 0;
    while i < n
      invariant 0 <= i <= n
      invariant rows == FloatRows(t, i)
    {
      rows := rows + [Row(t, i)];
      i := i + 1;
    }
    out := out + ([Text("static const float " + TableName(t) + "[][" + TableWidth(t) + "] = {\n")] + rows + [Text("};\n")]);
  }

  /** The counting loop over the faces. */
  method CountVisible(components: seq<int>, faces: seq<Face>, deleted: seq<int>) returns (count: nat)
    requires FacesInRange(faces, |components|)
    ensures count == |Visible(components, faces, deleted)|
  {
    count := 0;
    var i := 0;
    while i < |faces|
      invariant 0 <= i <= |faces|
      invariant count == |Visible(components, faces[..i], deleted)|
    {
      assert faces[..i + 1][..i] == faces[..i];
      var d := IsDeletedFace(components, faces[i], deleted);
      if !d {
        count := count + 1;
      }
      i := i + 1;
    }
    assert faces[..i] == faces;
  }

  /** One more face considered: it is kept unless it is deleted. */
  lemma VisibleStep(components: seq<int>, faces: seq<Face>, deleted: seq<int>, i: nat)
    requires FacesInRange(faces, |components|) && i < |faces|
    ensures FacesInRange(faces[..i], |components|) && FacesInRange(faces[..i + 1], |components|)
    ensures Visible(components, faces[..i + 1], deleted) ==
      Visible(components, faces[..i], deleted) + (if Deleted(components, faces[i], deleted) then [] else [faces[i]])
  {
    assert faces[..i + 1][..i] == faces[..i];
  }

  lemma FaceRowsSnoc(faces: seq<Face>, f: Face)
    ensures FaceRows(faces + [f]) == FaceRows(faces) + [Text(FaceText(f))]
  {
    assert (faces + [f])[..|faces|] == faces;
  }

  /** The loop that writes the rows of the visible faces. */
  method EmitFaceRows(components: seq<int>, faces: seq<Face>, deleted: seq<int>) returns (rows: seq<Out>)
    requires FacesInRange(faces, |components|)
    ensures rows == FaceRows(Visible(components, faces, deleted))
  {
    rows := [];
    var i := 0;
    while i < |faces|
      invariant 0 <= i <= |faces|
      invariant FacesInRange(faces[..i], |components|)
      invariant rows == FaceRows(Visible(components, faces[..i], deleted))
    {
      VisibleStep(components, faces, deleted, i);
      var d := IsDeletedFace(components, faces[i], deleted);
      if !d {
        FaceRowsSnoc(Visible(components, faces[..i], deleted), faces[i]);
        rows := rows + [Text(FaceText(faces[i]))];
      }
      i := i + 1;
    }
    assert faces[..i] == faces;
  }

  /** generate_code: the float tables, then faces_count and the rows of
      the faces that are not deleted. `components` holds each vertex's
      component. */
  method GenerateCode(vertexCount: nat, texcoords: nat, normals: nat, components: seq<int>, faces: seq<Face>, deleted: seq<int>)
    returns (out: seq<Out>)
    requires |components| == vertexCount && FacesInRange(faces, vertexCount)
    ensures out == ObjHeader(vertexCount, texcoords, normals, Visible(components, faces, deleted))
  {
    out := [Text("#ifndef OBJ_H_\n"), Text("#define OBJ_H_\n")];
    var table := EmitFloatTable(Vertices, vertexCount);
    out := out + table;
    table := EmitFloatTable(TexCoords, texcoords);
    out := out + table;
    table := EmitFloatTable(Normals, normals);
    out := out + table;
    var visibleCount := CountVisible(components, faces, deleted);
    var faceTable := [Text("#define faces_count " + Printf.DecimalDigits(visibleCount) + "\n")];
    if visibleCount == 0 {
      faceTable := faceTable + [Text("static const int faces[1][9] = {0};\n")];
    } else {
      var rows := EmitFaceRows(components, faces, deleted);
      faceTable := faceTable + ([Text("static const int faces[" + Printf.DecimalDigits(visibleCount) + "][9] = {\n")] + rows + [Text("};\n")]);
    }
    out := out + faceTable + [Text("#endif // OBJ_H_\n")];
  }

  /** What the header says about the faces: faces_count is the number of
      faces without a deleted vertex, followed by exactly their rows in
      file order, or by the placeholder when there are none. */
  lemma FaceTableContents(visible: seq<Face>)
    ensures var t := FaceTable(visible);
      t[0] == Text("#define faces_count " + Printf.DecimalDigits(|visible|) + "\n") &&
      (visible == [] ==> |t| == 2 && t[1] == Text("static const int faces[1][9] = {0};\n")) &&
      (visible != [] ==>
        |t| == |visible| + 3 && t[2..|visible| + 2] == FaceRows(visible) &&
        (forall i :: 0 <= i < |visible| ==> t[i + 2] == Text(FaceText(visible[i]))))
  {
    if visible != [] {
      FaceTableRows(visible);
    }
  }

  /** The rows of a non-empty face table sit between its two header lines
      and its closing line. */
  lemma FaceTableRows(visible: seq<Face>)
    requires visible != []
    ensures |FaceTable(visible)| == |visible| + 3 && FaceTable(visible)[2..|visible| + 2] == FaceRows(visible)
  {
    var head := Text("#define faces_count " + Printf.DecimalDigits(|visible|) + "\n");
    var open := Text("static const int faces[" + Printf.DecimalDigits(|visible|) + "][9] = {\n");
    Framed(head, open, FaceRows(visible), Text("};\n"));
  }

  /** A block framed by two lines above and one below. */
  lemma Framed<T>(a: T, b: T, rows: seq<T>, c: T)
    ensures var t := [a] + ([b] + rows + [c]); |t| == |rows| + 3 && t[2..|rows| + 2] == rows
  {
    var t := [a] + ([b] + rows + [c]);
    assert forall i :: 0 <= i < |rows| ==> t[2..|rows| + 2][i] == rows[i];
  }
}
