/** The connected-component labelling of tools/obj2c.c's main: every vertex
    gets the number of the component it belongs to, where two vertices are
    in one component when a chain of faces, each sharing a vertex with the
    next, joins them. Labels are written in place into the vertices'
    `component` fields, modelled as one array; the breadth-first waves are
    sequences of vertex indices. */
module Obj2cComponents {
  import opened CTypes
  import opened Obj2c

  // ---------------------------------------------------------------------
  // Reference definitions

  /** u and w are vertices of one face. */
  ghost predicate Adjacent(faces: seq<Face>, u: int, w: int) {
    exists fi :: 0 <= fi < |faces| && u in faces[fi].v && w in faces[fi].v
  }

  /** A non-empty walk along faces. */
  ghost predicate IsPath(faces: seq<Face>, p: seq<int>) {
    |p| > 0 && (|p| == 1 || (IsPath(faces, p[..|p| - 1]) && Adjacent(faces, p[|p| - 2], p[|p| - 1])))
  }

  /** Some walk along faces leads from u to w. */
  ghost predicate Connected(faces: seq<Face>, u: int, w: int) {
    exists p :: IsPath(faces, p) && p[0] == u && p[|p| - 1] == w
  }

  /** The number of vertices still unlabelled. */
  function Zeros(labels: seq<int>): (n: nat)
    ensures n <= |labels|
  {
    if labels == [] then 0 else Zeros(labels[..|labels| - 1]) + (if labels[|labels| - 1] == 0 then 1 else 0)
  }

  predicate VerticesIn(f: Face, n: nat) {
    forall k :: 0 <= k < VERTICES_PER_FACE ==> 0 <= f.v[k] < n
  }

  /** All three vertices of the face carry label c. */
  predicate FaceLabelled(labels: seq<int>, f: Face, c: int)
    requires VerticesIn(f, |labels|)
  {
    forall k :: 0 <= k < VERTICES_PER_FACE ==> labels[f.v[k]] == c
  }

  /** One label on all three vertices of the face. */
  predicate Uniform(labels: seq<int>, f: Face)
    requires VerticesIn(f, |labels|)
  {
    FaceLabelled(labels, f, labels[f.v[0]])
  }

  /** The face is settled (one label on all its vertices), or each of its
      vertices is unlabelled or still waiting in a wave. */
  predicate FaceOk(labels: seq<int>, f: Face, pending: seq<int>)
    requires VerticesIn(f, |labels|)
  {
    Uniform(labels, f) ||
    forall k :: 0 <= k < VERTICES_PER_FACE ==> labels[f.v[k]] == 0 || f.v[k] in pending
  }

  /** The invariant of the breadth-first search while component c is being
      labelled: labels are 0..c, the vertices waiting in the waves carry c,
      and every face is settled unless a vertex of it is still waiting. */
  predicate Spreading(labels: seq<int>, faces: seq<Face>, pending: seq<int>, c: int) {
    (forall fi :: 0 <= fi < |faces| ==> VerticesIn(faces[fi], |labels|)) &&
    (forall x :: 0 <= x < |labels| ==> 0 <= labels[x] <= c) &&
    (forall x :: x in pending ==> 0 <= x < |labels| && labels[x] == c) &&
    (forall fi :: 0 <= fi < |faces| ==> FaceOk(labels, faces[fi], pending))
  }

  /** Each labelled vertex is reached by a walk from the start vertex of
      its component, and each start carries its own component's label. */
  ghost predicate Witnessed(labels: seq<int>, faces: seq<Face>, starts: seq<int>, paths: seq<seq<int>>) {
    |paths| == |labels| &&
    (forall i :: 0 <= i < |starts| ==> 0 <= starts[i] < |labels| && labels[starts[i]] == i + 1) &&
    (forall x {:trigger paths[x]} :: 0 <= x < |labels| && labels[x] != 0 ==>
      1 <= labels[x] <= |starts| && IsPath(faces, paths[x]) &&
      paths[x][0] == starts[labels[x] - 1] && paths[x][|paths[x]| - 1] == x)
  }

  /** Only unlabelled vertices changed, and they took label c. */
  predicate Grew(labels: seq<int>, labels': seq<int>, c: int) {
    |labels'| == |labels| &&
    forall x :: 0 <= x < |labels| ==> labels'[x] == labels[x] || (labels[x] == 0 && labels'[x] == c)
  }

  /** Every vertex before the start of component i + 1 belongs to one of
      the components 1..i: starts are the first unlabelled vertex. */
  ghost predicate Ordered(labels: seq<int>, starts: seq<int>) {
    forall i, x :: 0 <= i < |starts| && 0 <= x < starts[i] && x < |labels| ==> 1 <= labels[x] <= i
  }

  /** The largest of the labels, 0 for none. */
  function MaxLabel(s: seq<int>): (m: int)
    ensures m >= 0 && forall i :: 0 <= i < |s| ==> s[i] <= m
  {
    if s == [] then 0 else Max(MaxLabel(s[..|s| - 1]), s[|s| - 1])
  }

  /** Numbers are handed out in order: each vertex's label is at most one
      more than the largest label before it. */
  predicate Canonical(labels: seq<int>) {
    forall u :: 0 <= u < |labels| ==> labels[u] <= MaxLabel(labels[..u]) + 1
  }

  /** What the labelling promises: labels 1..count, each used; one label
      exactly for each connected piece; and pieces numbered in the order
      of their lowest vertex. */
  ghost predicate ComponentNumbering(labels: seq<int>, faces: seq<Face>, count: nat) {
    (forall x :: 0 <= x < |labels| ==> 1 <= labels[x] <= count) &&
    (forall c :: 1 <= c <= count ==> c in labels) &&
    (forall u, w :: 0 <= u < |labels| && 0 <= w < |labels| ==> (labels[u] == labels[w] <==> Connected(faces, u, w))) &&
    Canonical(labels)
  }

  /** In order-numbered labels, the labels before u are exactly 1..max. */
  lemma {:induction false} CanonicalContiguous(labels: seq<int>, u: nat)
    requires Canonical(labels) && u <= |labels|
    requires forall x :: 0 <= x < |labels| ==> labels[x] >= 1
    ensures forall c :: 1 <= c <= MaxLabel(labels[..u]) ==> c in labels[..u]
    decreases u
  {
    if u > 0 {
      var w := u - 1;
      CanonicalContiguous(labels, w);
      assert labels[..u] == labels[..w] + [labels[w]];
      assert labels[..u][..w] == labels[..w];
    }
  }

  /** In order-numbered labels, a vertex that shares its label with no
      earlier vertex opens the next number. */
  lemma NumberingNext(labels: seq<int>, u: nat)
    requires Canonical(labels) && u < |labels|
    requires forall x :: 0 <= x < |labels| ==> labels[x] >= 1
    requires forall x :: 0 <= x < u ==> labels[x] != labels[u]
    ensures labels[u] == MaxLabel(labels[..u]) + 1
  {
    CanonicalContiguous(labels, u);
    assert forall x :: 0 <= x < u ==> labels[..u][x] == labels[x];
    assert labels[u] !in labels[..u];
  }

  /** Two order-numbered labellings that group the vertices alike agree on
      every prefix. */
  lemma {:induction false} NumberingPrefix(l1: seq<int>, l2: seq<int>, u: nat)
    requires |l1| == |l2| && u <= |l1| && Canonical(l1) && Canonical(l2)
    requires forall x :: 0 <= x < |l1| ==> l1[x] >= 1 && l2[x] >= 1
    requires forall x, w :: 0 <= x < |l1| && 0 <= w < |l1| ==> (l1[x] == l1[w] <==> l2[x] == l2[w])
    ensures l1[..u] == l2[..u]
    decreases u
  {
    if u > 0 {
      var w := u - 1;
      NumberingPrefix(l1, l2, w);
      if x :| 0 <= x < w && l1[x] == l1[w] {
        assert l1[..w][x] == l2[..w][x];
        assert l2[x] == l2[w];
      } else {
        forall x | 0 <= x < w
          ensures l2[x] != l2[w]
        {
          assert l1[..w][x] == l2[..w][x];
        }
        NumberingNext(l1, w);
        NumberingNext(l2, w);
      }
      assert l1[w] == l2[w];
      PrefixesExtend(l1, l2, w);
    }
  }

  /** Agreeing prefixes stay in agreement one element further. */
  lemma PrefixesExtend<T>(s1: seq<T>, s2: seq<T>, w: nat)
    requires w < |s1| && w < |s2| && s1[..w] == s2[..w] && s1[w] == s2[w]
    ensures s1[..w + 1] == s2[..w + 1]
  {
    assert s1[..w + 1] == s1[..w] + [s1[w]];
    assert s2[..w + 1] == s2[..w] + [s2[w]];
  }

  /** The numbering is determined by the faces: the labels and the count
      are the same for any two. */
  lemma NumberingUnique(l1: seq<int>, l2: seq<int>, faces: seq<Face>, c1: nat, c2: nat)
    requires ComponentNumbering(l1, faces, c1) && ComponentNumbering(l2, faces, c2) && |l1| == |l2|
    ensures l1 == l2 && c1 == c2
  {
    assert forall x, w :: 0 <= x < |l1| && 0 <= w < |l1| ==> (l1[x] == l1[w] <==> l2[x] == l2[w]) by {
      forall x, w | 0 <= x < |l1| && 0 <= w < |l1|
        ensures l1[x] == l1[w] <==> l2[x] == l2[w]
      {
        assert l1[x] == l1[w] <==> Connected(faces, x, w);
        assert l2[x] == l2[w] <==> Connected(faces, x, w);
      }
    }
    NumberingPrefix(l1, l2, |l1|);
    assert l1 == l1[..|l1|] && l2 == l2[..|l2|];
    if c1 >= 1 {
      assert c1 in l2;
    }
    if c2 >= 1 {
      assert c2 in l1;
    }
  }

  // ---------------------------------------------------------------------
  // Lemmas about the search

  lemma {:induction false} ZerosLabel(labels: seq<int>, w: int, c: int)
    requires 0 <= w < |labels| && labels[w] == 0 && c != 0
    ensures Zeros(labels[w := c]) == Zeros(labels) - 1
    decreases |labels|
  {
    var n := |labels|;
    if w == n - 1 {
      assert labels[w := c][..n - 1] == labels[..n - 1];
    } else {
      assert labels[w := c][..n - 1] == labels[..n - 1][w := c];
      ZerosLabel(labels[..n - 1], w, c);
    }
  }

  lemma {:induction false} GrewZeros(labels: seq<int>, labels': seq<int>, c: int)
    requires Grew(labels, labels', c) && c != 0
    ensures Zeros(labels') <= Zeros(labels)
    decreases |labels|
  {
    if labels != [] {
      var n := |labels|;
      GrewZeros(labels[..n - 1], labels'[..n - 1], c);
    }
  }

  /** Labelling an unlabelled vertex with c and putting it in the wave keeps
      the invariant. */
  lemma LabelStep(labels: seq<int>, faces: seq<Face>, pending: seq<int>, c: int, w: int)
    requires Spreading(labels, faces, pending, c) && 0 <= w < |labels| && labels[w] == 0 && c >= 1
    ensures Spreading(labels[w := c], faces, pending + [w], c)
  {
    var labels' := labels[w := c];
    forall fi | 0 <= fi < |faces|
      ensures FaceOk(labels', faces[fi], pending + [w])
    {
      var f := faces[fi];
      if Uniform(labels, f) && w in f.v {
        assert forall k :: 0 <= k < VERTICES_PER_FACE ==> labels'[f.v[k]] == 0 || f.v[k] in pending + [w];
      }
    }
  }

  /** A vertex met through a face of a waiting vertex v that already has a
      label has v's label. */
  lemma NeighbourLabel(labels: seq<int>, faces: seq<Face>, vf: seq<seq<nat>>, pending: seq<int>, c: int, v: nat, j: nat, k: nat)
    requires Linked(vf, faces) && |vf| == |labels| && Spreading(labels, faces, pending, c)
    requires v in pending && v < |vf| && j < |vf[v]| && k < VERTICES_PER_FACE
    requires labels[faces[vf[v][j]].v[k]] != 0
    ensures labels[faces[vf[v][j]].v[k]] == c
  {
    var f := faces[vf[v][j]];
    assert v in f.v;
    var m :| 0 <= m < VERTICES_PER_FACE && f.v[m] == v;
    assert FaceOk(labels, f, pending);
  }

  /** Once every face of v is labelled c, v can leave the wave. */
  lemma Release(labels: seq<int>, faces: seq<Face>, vf: seq<seq<nat>>, rest: seq<int>, c: int, v: nat)
    requires Linked(vf, faces) && |vf| == |labels| && v < |vf|
    requires Spreading(labels, faces, [v] + rest, c)
    requires forall j :: 0 <= j < |vf[v]| ==> FaceLabelled(labels, faces[vf[v][j]], c)
    ensures Spreading(labels, faces, rest, c)
  {
    forall fi | 0 <= fi < |faces|
      ensures FaceOk(labels, faces[fi], rest)
    {
      var f := faces[fi];
      if v in f.v {
        var k :| 0 <= k < VERTICES_PER_FACE && f.v[k] == v;
        assert fi in vf[v];
        var j :| 0 <= j < |vf[v]| && vf[v][j] == fi;
        assert FaceLabelled(labels, f, c);
      } else {
        assert FaceOk(labels, f, [v] + rest);
        FaceOkWithout(labels, f, v, rest);
      }
    }
  }

  /** A face without v does not need v to be waiting. */
  lemma FaceOkWithout(labels: seq<int>, f: Face, v: int, rest: seq<int>)
    requires VerticesIn(f, |labels|) && v !in f.v && FaceOk(labels, f, [v] + rest)
    ensures FaceOk(labels, f, rest)
  {
    if !Uniform(labels, f) {
      forall k | 0 <= k < VERTICES_PER_FACE
        ensures labels[f.v[k]] == 0 || f.v[k] in rest
      {
        assert f.v[k] in f.v;
      }
    }
  }

  lemma IsPathSnoc(faces: seq<Face>, p: seq<int>, w: int)
    requires IsPath(faces, p) && Adjacent(faces, p[|p| - 1], w)
    ensures IsPath(faces, p + [w])
  {
    assert (p + [w])[..|p|] == p;
  }

  /** Labelling w, a vertex of a face that also holds the labelled vertex
      v, extends v's walk to w. */
  lemma WitnessStep(labels: seq<int>, faces: seq<Face>, starts: seq<int>, paths: seq<seq<int>>, c: int, v: nat, fi: nat, w: int)
    requires Witnessed(labels, faces, starts, paths)
    requires fi < |faces| && v in faces[fi].v && w in faces[fi].v && 0 <= w < |labels| && v < |labels|
    requires labels[v] == c && c >= 1 && labels[w] == 0
    ensures Witnessed(labels[w := c], faces, starts, paths[w := paths[v] + [w]])
  {
    assert Adjacent(faces, v, w);
    IsPathSnoc(faces, paths[v], w);
    var labels', paths' := labels[w := c], paths[w := paths[v] + [w]];
    forall x | 0 <= x < |labels'| && labels'[x] != 0
      ensures 1 <= labels'[x] <= |starts| && IsPath(faces, paths'[x])
      ensures paths'[x][0] == starts[labels'[x] - 1] && paths'[x][|paths'[x]| - 1] == x
    {
      if x == w {
        assert paths'[x] == paths[v] + [w];
      } else {
        assert labels'[x] == labels[x] && paths'[x] == paths[x];
      }
    }
  }

  /** One vertex labelled from v: the invariant, the walks and the count
      of unlabelled vertices all follow. */
  lemma LabelVertex(labels: seq<int>, faces: seq<Face>, vf: seq<seq<nat>>, pending: seq<int>, starts: seq<int>, paths: seq<seq<int>>,
                    c: int, v: nat, j: nat, w: int)
    requires Linked(vf, faces) && |vf| == |labels| && v < |vf| && j < |vf[v]| && c >= 1
    requires v in pending && Spreading(labels, faces, pending, c) && Witnessed(labels, faces, starts, paths)
    requires w in faces[vf[v][j]].v && 0 <= w < |labels| && labels[w] == 0
    ensures Spreading(labels[w := c], faces, pending + [w], c)
    ensures Witnessed(labels[w := c], faces, starts, paths[w := paths[v] + [w]])
    ensures Zeros(labels[w := c]) == Zeros(labels) - 1
  {
    LabelStep(labels, faces, pending, c, w);
    assert vf[v][j] < |faces| && v in faces[vf[v][j]].v;
    WitnessStep(labels, faces, starts, paths, c, v, vf[v][j], w);
    ZerosLabel(labels, w, c);
  }

  lemma Associative(a: seq<int>, b: seq<int>, c: seq<int>)
    ensures (a + b) + c == a + (b + c)
  {
  }

  lemma GrewTrans(labels0: seq<int>, labels1: seq<int>, labels2: seq<int>, c: int)
    requires Grew(labels0, labels1, c) && Grew(labels1, labels2, c) && c != 0
    ensures Grew(labels0, labels2, c)
  {
  }

  lemma GrewKeepsLabelled(labels: seq<int>, labels': seq<int>, faces: seq<Face>, fis: seq<nat>, c: int)
    requires Grew(labels, labels', c) && c != 0
    requires forall i :: 0 <= i < |fis| ==> fis[i] < |faces| && VerticesIn(faces[fis[i]], |labels|)
    requires forall i :: 0 <= i < |fis| ==> FaceLabelled(labels, faces[fis[i]], c)
    ensures forall i :: 0 <= i < |fis| ==> FaceLabelled(labels', faces[fis[i]], c)
  {
  }

  /** Allowing one more label keeps the invariant. */
  lemma Raise(labels: seq<int>, faces: seq<Face>, c: int)
    requires Spreading(labels, faces, [], c - 1)
    ensures Spreading(labels, faces, [], c)
  {
  }

  /** A new component's start vertex: labelled c, waiting, and its own walk. */
  lemma LabelStart(labels: seq<int>, faces: seq<Face>, starts: seq<int>, paths: seq<seq<int>>, c: int, start: int)
    requires Spreading(labels, faces, [], c) && Witnessed(labels, faces, starts, paths) && |starts| == c - 1 && c >= 1
    requires 0 <= start < |labels| && labels[start] == 0
    ensures Spreading(labels[start := c], faces, [start], c)
    ensures Witnessed(labels[start := c], faces, starts + [start], paths[start := [start]])
    ensures Zeros(labels[start := c]) == Zeros(labels) - 1
  {
    LabelStep(labels, faces, [], c, start);
    ZerosLabel(labels, start, c);
    StartWitnessed(labels, faces, starts, paths, c, start);
  }

  lemma StartWitnessed(labels: seq<int>, faces: seq<Face>, starts: seq<int>, paths: seq<seq<int>>, c: int, start: int)
    requires Witnessed(labels, faces, starts, paths) && |starts| == c - 1 && c >= 1
    requires 0 <= start < |labels| && labels[start] == 0
    ensures Witnessed(labels[start := c], faces, starts + [start], paths[start := [start]])
  {
    var labels', starts', paths' := labels[start := c], starts + [start], paths[start := [start]];
    forall i | 0 <= i < |starts'|
      ensures 0 <= starts'[i] < |labels'| && labels'[starts'[i]] == i + 1
    {
      if i < |starts| {
        assert starts'[i] == starts[i] && labels[starts[i]] == i + 1;
      }
    }
    forall x | 0 <= x < |labels'| && labels'[x] != 0
      ensures 1 <= labels'[x] <= |starts'| && IsPath(faces, paths'[x])
      ensures paths'[x][0] == starts'[labels'[x] - 1] && paths'[x][|paths'[x]| - 1] == x
    {
      if x != start {
        assert labels'[x] == labels[x] && paths'[x] == paths[x];
        assert starts'[labels[x] - 1] == starts[labels[x] - 1];
      }
    }
  }

  lemma AdjacentSymmetric(faces: seq<Face>, u: int, w: int)
    requires Adjacent(faces, u, w)
    ensures Adjacent(faces, w, u)
  {
    var fi :| 0 <= fi < |faces| && u in faces[fi].v && w in faces[fi].v;
  }

  lemma {:induction false} IsPathCons(faces: seq<Face>, x: int, r: seq<int>)
    requires IsPath(faces, r) && Adjacent(faces, x, r[0])
    ensures IsPath(faces, [x] + r)
    decreases |r|
  {
    var q := [x] + r;
    if |r| == 1 {
      assert q[..1] == [x];
    } else {
      var r' := r[..|r| - 1];
      IsPathCons(faces, x, r');
      assert q[..|q| - 1] == [x] + r';
    }
  }

  /** A walk read backwards. */
  function Reversed(p: seq<int>): (r: seq<int>)
    ensures |r| == |p|
  {
    if p == [] then [] else [p[|p| - 1]] + Reversed(p[..|p| - 1])
  }

  /** A walk read backwards is a walk between the same two vertices. */
  lemma {:induction false} ReversedPath(faces: seq<Face>, p: seq<int>)
    requires IsPath(faces, p)
    ensures IsPath(faces, Reversed(p)) && Reversed(p)[0] == p[|p| - 1] && Reversed(p)[|p| - 1] == p[0]
    decreases |p|
  {
    if |p| > 1 {
      var q := p[..|p| - 1];
      ReversedPath(faces, q);
      AdjacentSymmetric(faces, p[|p| - 2], p[|p| - 1]);
      IsPathCons(faces, p[|p| - 1], Reversed(q));
    }
  }

  /** A walk to x followed by a walk from x. */
  lemma {:induction false} JoinedPath(faces: seq<Face>, a: seq<int>, b: seq<int>)
    requires IsPath(faces, a) && IsPath(faces, b) && a[|a| - 1] == b[0]
    ensures IsPath(faces, a + b[1..]) && (a + b[1..])[0] == a[0] && (a + b[1..])[|a + b[1..]| - 1] == b[|b| - 1]
    decreases |b|
  {
    if |b| == 1 {
      assert a + b[1..] == a;
    } else {
      var b' := b[..|b| - 1];
      JoinedPath(faces, a, b');
      assert a + b[1..] == (a + b'[1..]) + [b[|b| - 1]];
      IsPathSnoc(faces, a + b'[1..], b[|b| - 1]);
    }
  }

  /** When every face is settled, a walk never changes label. */
  lemma {:induction false} PathKeepsLabel(labels: seq<int>, faces: seq<Face>, p: seq<int>)
    requires forall fi :: 0 <= fi < |faces| ==> VerticesIn(faces[fi], |labels|)
    requires forall fi :: 0 <= fi < |faces| ==> Uniform(labels, faces[fi])
    requires IsPath(faces, p) && 0 <= p[0] < |labels|
    ensures 0 <= p[|p| - 1] < |labels| && labels[p[|p| - 1]] == labels[p[0]]
    decreases |p|
  {
    if |p| > 1 {
      var q := p[..|p| - 1];
      PathKeepsLabel(labels, faces, q);
      var fi :| 0 <= fi < |faces| && p[|p| - 2] in faces[fi].v && p[|p| - 1] in faces[fi].v;
      assert Uniform(labels, faces[fi]);
    }
  }

  /** With nothing waiting and nothing unlabelled, every face is settled. */
  lemma AllUniform(labels: seq<int>, faces: seq<Face>, n: nat)
    requires Spreading(labels, faces, [], n)
    requires forall x :: 0 <= x < |labels| ==> labels[x] != 0
    ensures forall fi :: 0 <= fi < |faces| ==> Uniform(labels, faces[fi])
  {
    forall fi | 0 <= fi < |faces|
      ensures Uniform(labels, faces[fi])
    {
      assert FaceOk(labels, faces[fi], []);
    }
  }

  /** Two vertices with one label are joined by a walk through the start
      of their component, and a walk keeps the label when faces are
      settled. */
  lemma SameLabelConnected(labels: seq<int>, faces: seq<Face>, starts: seq<int>, paths: seq<seq<int>>, u: int, w: int)
    requires Witnessed(labels, faces, starts, paths)
    requires forall fi :: 0 <= fi < |faces| ==> VerticesIn(faces[fi], |labels|)
    requires forall fi :: 0 <= fi < |faces| ==> Uniform(labels, faces[fi])
    requires 0 <= u < |labels| && 0 <= w < |labels| && labels[u] != 0 && labels[w] != 0
    ensures labels[u] == labels[w] <==> Connected(faces, u, w)
  {
    if labels[u] == labels[w] {
      SameLabelWalk(labels, faces, starts, paths, u, w);
    }
    if Connected(faces, u, w) {
      var p :| IsPath(faces, p) && p[0] == u && p[|p| - 1] == w;
      PathKeepsLabel(labels, faces, p);
    }
  }

  /** Back along u's witness walk to the start, then out along w's. */
  lemma SameLabelWalk(labels: seq<int>, faces: seq<Face>, starts: seq<int>, paths: seq<seq<int>>, u: int, w: int)
    requires Witnessed(labels, faces, starts, paths)
    requires 0 <= u < |labels| && 0 <= w < |labels| && labels[u] != 0 && labels[u] == labels[w]
    ensures Connected(faces, u, w)
  {
    var pu, pw := paths[u], paths[w];
    ReversedPath(faces, pu);
    JoinedPath(faces, Reversed(pu), pw);
    var p := Reversed(pu) + pw[1..];
    assert IsPath(faces, p) && p[0] == u && p[|p| - 1] == w;
  }

  /** The end of the search: no vertex waits and none is unlabelled, so
      every face is settled, every label names a component, and one label
      means one connected piece. */
  lemma Settled(labels: seq<int>, faces: seq<Face>, starts: seq<int>, paths: seq<seq<int>>, n: nat)
    requires Spreading(labels, faces, [], n) && Witnessed(labels, faces, starts, paths) && |starts| == n
    requires forall x :: 0 <= x < |labels| ==> labels[x] != 0
    ensures forall x :: 0 <= x < |labels| ==> 1 <= labels[x] <= n
    ensures forall fi, k :: 0 <= fi < |faces| && 0 <= k < VERTICES_PER_FACE ==>
      labels[faces[fi].v[k]] == labels[faces[fi].v[0]]
    ensures forall c :: 1 <= c <= n ==> c in labels
    ensures forall u, w :: 0 <= u < |labels| && 0 <= w < |labels| ==>
      (labels[u] == labels[w] <==> Connected(faces, u, w))
  {
    AllUniform(labels, faces, n);
    forall c | 1 <= c <= n
      ensures c in labels
    {
      assert labels[starts[c - 1]] == c;
    }
    forall u, w | 0 <= u < |labels| && 0 <= w < |labels|
      ensures labels[u] == labels[w] <==> Connected(faces, u, w)
    {
      SameLabelConnected(labels, faces, starts, paths, u, w);
    }
  }

  /** Starting component c at the first unlabelled vertex keeps the
      starts ordered while the component spreads. */
  lemma OrderedStep(labels: seq<int>, labels': seq<int>, starts: seq<int>, start: int, c: int)
    requires Ordered(labels, starts) && |starts| == c - 1 && c >= 1 && Grew(labels, labels', c)
    requires forall x :: 0 <= x < start && x < |labels| ==> 1 <= labels[x] <= c - 1
    ensures Ordered(labels', starts + [start])
  {
    var starts' := starts + [start];
    forall i, x | 0 <= i < |starts'| && 0 <= x < starts'[i] && x < |labels'|
      ensures 1 <= labels'[x] <= i
    {
      if i < |starts| {
        assert starts'[i] == starts[i];
      }
    }
  }

  /** Starts that are each the first unlabelled vertex number the
      components in the order of their lowest vertex. */
  lemma OrderedCanonical(labels: seq<int>, faces: seq<Face>, starts: seq<int>, paths: seq<seq<int>>)
    requires Ordered(labels, starts) && Witnessed(labels, faces, starts, paths)
    requires forall x :: 0 <= x < |labels| ==> labels[x] != 0
    ensures Canonical(labels)
  {
    forall u | 0 <= u < |labels|
      ensures labels[u] <= MaxLabel(labels[..u]) + 1
    {
      var c := labels[u];
      assert IsPath(faces, paths[u]) && c <= |starts|;
      if c > 1 {
        var s1, s2 := starts[c - 2], starts[c - 1];
        assert labels[s1] == c - 1 && labels[s2] == c;
        assert s2 <= u;
        assert s1 < s2;
        assert labels[..u][s1] == c - 1;
      }
    }
  }

  // ---------------------------------------------------------------------
  // The search

  /** unvisited_vertex: the first vertex without a component, or -1. */
  method UnvisitedVertex(component: array<int>) returns (r: int)
    ensures -1 <= r < component.Length
    ensures r == -1 <==> forall x :: 0 <= x < component.Length ==> component[x] != 0
    ensures r >= 0 ==> component[r] == 0 && forall x :: 0 <= x < r ==> component[x] != 0
  {
    var i := 0;
    while i < component.Length
      invariant 0 <= i <= component.Length
      invariant forall x :: 0 <= x < i ==> component[x] != 0
    {
      if component[i] == 0 {
        return i;
      }
      i := i + 1;
    }
    return -1;
  }

  /** The body of the innermost loop for the vertex w of face vf[v][j]:
      when it has no component yet it gets label c and joins the next
      wave; otherwise it already has label c. */
  method VisitVertex(component: array<int>, vf: seq<seq<nat>>, faces: seq<Face>, v: nat, j: nat, w: nat, c: int,
                     ghost pending: seq<int>, ghost starts: seq<int>, ghost paths0: seq<seq<int>>)
    returns (added: seq<nat>, ghost paths: seq<seq<int>>)
    requires Linked(vf, faces) && component.Length == |vf| && v < |vf| && j < |vf[v]| && c >= 1
    requires w in faces[vf[v][j]].v && w < |vf|
    requires v in pending && Spreading(component[..], faces, pending, c)
    requires Witnessed(component[..], faces, starts, paths0) && |starts| == c
    modifies component
    ensures component[w] == c
    ensures Spreading(component[..], faces, pending + added, c)
    ensures Witnessed(component[..], faces, starts, paths)
    ensures Grew(old(component[..]), component[..], c)
    ensures Zeros(old(component[..])) == Zeros(component[..]) + |added|
  {
    paths := paths0;
    if component[w] == 0 {
      ghost var before := component[..];
      LabelVertex(before, faces, vf, pending, starts, paths, c, v, j, w);
      paths := paths[w := paths[v] + [w]];
      component[w] := c;
      assert component[..] == before[w := c];
      added := [w];
    } else {
      var k :| 0 <= k < VERTICES_PER_FACE && faces[vf[v][j]].v[k] == w;
      NeighbourLabel(component[..], faces, vf, pending, c, v, j, k);
      added := [];
      assert pending + added == pending;
    }
  }

  /** The innermost loop: the three vertices of face vf[v][j]. */
  method VisitFace(component: array<int>, vf: seq<seq<nat>>, faces: seq<Face>, v: nat, j: nat, c: int,
                   ghost pending: seq<int>, ghost starts: seq<int>, ghost paths0: seq<seq<int>>)
    returns (added: seq<nat>, ghost paths: seq<seq<int>>)
    requires Linked(vf, faces) && component.Length == |vf| && v < |vf| && j < |vf[v]| && c >= 1
    requires v in pending && Spreading(component[..], faces, pending, c)
    requires Witnessed(component[..], faces, starts, paths0) && |starts| == c
    modifies component
    ensures Spreading(component[..], faces, pending + added, c)
    ensures Witnessed(component[..], faces, starts, paths)
    ensures FaceLabelled(component[..], faces[vf[v][j]], c)
    ensures Grew(old(component[..]), component[..], c)
    ensures Zeros(old(component[..])) == Zeros(component[..]) + |added|
  {
    added := [];
    paths := paths0;
    var fi := vf[v][j];
    assert fi < |faces| && VerticesIn(faces[fi], component.Length);
    var k := 0;
    assert pending + added == pending;
    while k < VERTICES_PER_FACE
      invariant 0 <= k <= VERTICES_PER_FACE
      invariant VerticesIn(faces[fi], component.Length)
      invariant Spreading(component[..], faces, pending + added, c)
      invariant Witnessed(component[..], faces, starts, paths)
      invariant forall m :: 0 <= m < k ==> component[faces[fi].v[m]] == c
      invariant Grew(old(component[..]), component[..], c)
      invariant Zeros(old(component[..])) == Zeros(component[..]) + |added|
    {
      ghost var before := component[..];
      var more;
      more, paths := VisitVertex(component, vf, faces, v, j, faces[fi].v[k], c, pending + added, starts, paths);
      GrewTrans(old(component[..]), before, component[..], c);
      Associative(pending, added, more);
      added := added + more;
      k := k + 1;
    }
  }

  /** The loop over the faces of one vertex of the wave: every face of v
      ends up labelled c, so v leaves the wave. */
  method VisitNeighbours(component: array<int>, vf: seq<seq<nat>>, faces: seq<Face>, v: nat, c: int,
                         ghost rest: seq<int>, ghost starts: seq<int>, ghost paths0: seq<seq<int>>)
    returns (added: seq<nat>, ghost paths: seq<seq<int>>)
    requires Linked(vf, faces) && component.Length == |vf| && v < |vf| && c >= 1
    requires Spreading(component[..], faces, [v] + rest, c)
    requires Witnessed(component[..], faces, starts, paths0) && |starts| == c
    modifies component
    ensures Spreading(component[..], faces, rest + added, c)
    ensures Witnessed(component[..], faces, starts, paths)
    ensures Grew(old(component[..]), component[..], c)
    ensures Zeros(old(component[..])) == Zeros(component[..]) + |added|
  {
    added := [];
    paths := paths0;
    var j := 0;
    assert ([v] + rest) + added == [v] + rest;
    while j < |vf[v]|
      invariant 0 <= j <= |vf[v]|
      invariant Spreading(component[..], faces, ([v] + rest) + added, c)
      invariant Witnessed(component[..], faces, starts, paths)
      invariant forall i :: 0 <= i < j ==> FaceLabelled(component[..], faces[vf[v][i]], c)
      invariant Grew(old(component[..]), component[..], c)
      invariant Zeros(old(component[..])) == Zeros(component[..]) + |added|
    {
      ghost var before := component[..];
      var more;
      more, paths := VisitFace(component, vf, faces, v, j, c, ([v] + rest) + added, starts, paths);
      GrewKeepsLabelled(before, component[..], faces, vf[v][..j], c);
      GrewTrans(old(component[..]), before, component[..], c);
      Associative([v] + rest, added, more);
      added := added + more;
      j := j + 1;
    }
    Associative([v], rest, added);
    Release(component[..], faces, vf, rest + added, c, v);
  }

  /** One wave: the neighbours of its vertices that had no component yet,
      now labelled c, form the next wave. */
  method SpreadWave(component: array<int>, vf: seq<seq<nat>>, faces: seq<Face>, wave: seq<nat>, c: int,
                    ghost starts: seq<int>, ghost paths0: seq<seq<int>>)
    returns (nextWave: seq<nat>, ghost paths: seq<seq<int>>)
    requires Linked(vf, faces) && component.Length == |vf| && c >= 1
    requires Spreading(component[..], faces, wave, c)
    requires Witnessed(component[..], faces, starts, paths0) && |starts| == c
    modifies component
    ensures Spreading(component[..], faces, nextWave, c)
    ensures Witnessed(component[..], faces, starts, paths)
    ensures Grew(old(component[..]), component[..], c)
    ensures Zeros(old(component[..])) == Zeros(component[..]) + |nextWave|
  {
    nextWave := [];
    paths := paths0;
    var i := 0;
    assert wave[0..] + nextWave == wave;
    while i < |wave|
      invariant 0 <= i <= |wave|
      invariant Spreading(component[..], faces, wave[i..] + nextWave, c)
      invariant Witnessed(component[..], faces, starts, paths)
      invariant Grew(old(component[..]), component[..], c)
      invariant Zeros(old(component[..])) == Zeros(component[..]) + |nextWave|
    {
      ghost var before := component[..];
      var v := wave[i];
      assert v in wave[i..] + nextWave;
      ghost var rest := wave[i + 1..] + nextWave;
      assert wave[i..] + nextWave == [v] + rest by {
        assert wave[i..] == [v] + wave[i + 1..];
        Associative([v], wave[i + 1..], nextWave);
      }
      var added;
      added, paths := VisitNeighbours(component, vf, faces, v, c, rest, starts, paths);
      GrewTrans(old(component[..]), before, component[..], c);
      Associative(wave[i + 1..], nextWave, added);
      nextWave := nextWave + added;
      i := i + 1;
    }
    assert wave[i..] + nextWave == nextWave;
  }

  /** One component: label the start vertex c, then spread wave by wave
      until a wave adds nobody. */
  method SpreadComponent(component: array<int>, vf: seq<seq<nat>>, faces: seq<Face>, start: nat, c: int,
                         ghost starts0: seq<int>, ghost paths0: seq<seq<int>>)
    returns (ghost starts: seq<int>, ghost paths: seq<seq<int>>)
    requires Linked(vf, faces) && component.Length == |vf| && start < |vf| && c >= 1
    requires component[start] == 0
    requires Spreading(component[..], faces, [], c - 1)
    requires Witnessed(component[..], faces, starts0, paths0) && |starts0| == c - 1
    modifies component
    ensures Spreading(component[..], faces, [], c)
    ensures Witnessed(component[..], faces, starts, paths) && starts == starts0 + [start]
    ensures Grew(old(component[..]), component[..], c)
    ensures Zeros(component[..]) < Zeros(old(component[..]))
  {
    starts := starts0 + [start];
    ghost var before := component[..];
    Raise(before, faces, c);
    LabelStart(before, faces, starts0, paths0, c, start);
    paths := paths0[start := [start]];
    component[start] := c;
    assert component[..] == before[start := c];
    var wave: seq<nat> := [start];
    while |wave| > 0
      invariant Spreading(component[..], faces, wave, c)
      invariant Witnessed(component[..], faces, starts, paths)
      invariant Grew(old(component[..]), component[..], c)
      invariant Zeros(component[..]) < Zeros(old(component[..]))
      decreases Zeros(component[..]), |wave|
    {
      ghost var before := component[..];
      wave, paths := SpreadWave(component, vf, faces, wave, c, starts, paths);
      GrewTrans(old(component[..]), before, component[..], c);
    }
  }

  /** One pass of the outer loop of the labelling: component c grows from
      the first unlabelled vertex, and the components stay numbered in the
      order of their first vertices. */
  method NextComponent(component: array<int>, vf: seq<seq<nat>>, faces: seq<Face>, start: nat, c: int,
                       ghost starts0: seq<int>, ghost paths0: seq<seq<int>>)
    returns (ghost starts: seq<int>, ghost paths: seq<seq<int>>)
    requires Linked(vf, faces) && component.Length == |vf| && start < |vf| && c >= 1
    requires component[start] == 0 && forall x :: 0 <= x < start ==> component[x] != 0
    requires Spreading(component[..], faces, [], c - 1)
    requires Witnessed(component[..], faces, starts0, paths0) && |starts0| == c - 1
    requires Ordered(component[..], starts0)
    modifies component
    ensures Spreading(component[..], faces, [], c)
    ensures Witnessed(component[..], faces, starts, paths) && |starts| == c
    ensures Ordered(component[..], starts)
    ensures Zeros(component[..]) < Zeros(old(component[..]))
  {
    ghost var before := component[..];
    starts, paths := SpreadComponent(component, vf, faces, start, c, starts0, paths0);
    OrderedStep(before, component[..], starts0, start, c);
  }

  /** The labelling loop of main: while some vertex has no component, it
      starts a new one. Every vertex ends with a label 1..compCount, the
      three vertices of each face share one label, and two vertices share
      a label exactly when faces connect them. */
  method LabelComponents(component: array<int>, vf: seq<seq<nat>>, faces: seq<Face>) returns (compCount: nat)
    requires Linked(vf, faces) && component.Length == |vf|
    requires forall x :: 0 <= x < component.Length ==> component[x] == 0
    modifies component
    ensures ComponentNumbering(component[..], faces, compCount)
    ensures forall fi, k :: 0 <= fi < |faces| && 0 <= k < VERTICES_PER_FACE ==>
      component[faces[fi].v[k]] == component[faces[fi].v[0]]
  {
    compCount := 0;
    ghost var starts: seq<int> := [];
    ghost var paths: seq<seq<int>> := seq(component.Length, x => []);
    assert Spreading(component[..], faces, [], 0);
    var start := UnvisitedVertex(component);
    while start >= 0
      invariant -1 <= start < component.Length
      invariant start == -1 ==> forall x :: 0 <= x < component.Length ==> component[x] != 0
      invariant start >= 0 ==> component[start] == 0 && forall x :: 0 <= x < start ==> component[x] != 0
      invariant Spreading(component[..], faces, [], compCount)
      invariant Witnessed(component[..], faces, starts, paths) && |starts| == compCount
      invariant Ordered(component[..], starts)
      decreases Zeros(component[..])
    {
      compCount := compCount + 1;
      starts, paths := NextComponent(component, vf, faces, start, compCount, starts, paths);
      start := UnvisitedVertex(component);
    }
    LabellingDone(component[..], faces, starts, paths, compCount);
  }

  /** Once no vertex is unlabelled, the labels number the components in
      order and every face lies in one component. */
  lemma LabellingDone(labels: seq<int>, faces: seq<Face>, starts: seq<int>, paths: seq<seq<int>>, n: nat)
    requires Spreading(labels, faces, [], n) && Witnessed(labels, faces, starts, paths) && |starts| == n
    requires Ordered(labels, starts)
    requires forall x :: 0 <= x < |labels| ==> labels[x] != 0
    ensures ComponentNumbering(labels, faces, n)
    ensures forall fi, k :: 0 <= fi < |faces| && 0 <= k < VERTICES_PER_FACE ==>
      labels[faces[fi].v[k]] == labels[faces[fi].v[0]]
  {
    Settled(labels, faces, starts, paths, n);
    OrderedCanonical(labels, faces, starts, paths);
  }
}
