/** nob.h: the dynamic-array macros, the temporary bump allocator, command
    rendering and path helpers. The nob_sv_* functions repeat sv.h and are
    modelled once, in module Sv. */
module Nob {
  import opened CTypes

  const NOB_DA_INIT_CAP: nat := 256
  const NOB_TEMP_CAPACITY: nat := 8 * 1024 * 1024

  /** nob_shift: pops the first element of a non-empty array (the size is
      asserted positive). */
  function Shift<T>(xs: seq<T>): (r: (T, seq<T>))
    requires |xs| > 0
    ensures [r.0] + r.1 == xs
  {
    (xs[0], xs[1..])
  }

  // ---------------------------------------------------------------------
  // Dynamic arrays

  /** The capacity reached by doubling `c` until `needed` fits. */
  function Doubled(c: nat, needed: nat): (r: nat)
    requires c > 0
    decreases needed - c
  {
    if needed > c then Doubled(2 * c, needed) else c
  }

  /** Doubling stops at the first capacity that fits: it is at least
      `needed`, and either it is the starting capacity or its half did not
      fit. */
  lemma {:induction false} DoubledFits(c: nat, needed: nat)
    requires c > 0
    ensures Doubled(c, needed) >= needed && Doubled(c, needed) >= c
    ensures Doubled(c, needed) == c || Doubled(c, needed) < 2 * needed
    decreases needed - c
  {
    if needed > c {
      DoubledFits(2 * c, needed);
    }
  }

  /** A growable array `{items, count, capacity}`; the capacity is the length
      of the allocated block `items`. */
  class DynArray<T(0)> {
    var items: array<T>
    var count: nat
    const initCap: nat

    ghost predicate Valid()
      reads this
    {
      count <= items.Length && initCap > 0
    }

    /** The items in use. */
    function Contents(): seq<T>
      reads this, items
      requires Valid()
    {
      items[..count]
    }

    /** The zero-initialised array `{0}` with the given initial capacity
        (NOB_DA_INIT_CAP for nob.h). */
    constructor(initCap: nat)
      requires initCap > 0
      ensures Valid() && fresh(items)
      ensures this.initCap == initCap && count == 0 && items.Length == 0
    {
      this.initCap := initCap;
      items := new T[0];
      count := 0;
    }

    /** realloc: a new block of `newCap` items starting with the old block. */
    method Realloc(newCap: nat)
      requires Valid() && newCap >= items.Length
      modifies this
      ensures Valid() && fresh(items)
      ensures items.Length == newCap && count == old(count)
      ensures items[..old(items.Length)] == old(items[..])
    {
      var block := new T[newCap];
      forall i | 0 <= i < items.Length {
        block[i] := items[i];
      }
      items := block;
    }

    /** nob_da_append: a full array grows to NOB_DA_INIT_CAP when empty,
        otherwise to twice its capacity; the item goes after the others. */
    method Append(x: T)
      requires Valid()
      modifies this, items
      ensures Valid() && (items == old(items) || fresh(items))
      ensures Contents() == old(Contents()) + [x]
      ensures old(count) < old(items.Length) ==> items.Length == old(items.Length)
      ensures old(count) >= old(items.Length) ==>
        items.Length == (if old(items.Length) == 0 then initCap else 2 * old(items.Length))
    {
      if count >= items.Length {
        var cap := if items.Length == 0 then initCap else items.Length * 2;
        Realloc(cap);
      }
      items[count] := x;
      count := count + 1;
    }

    /** nob_da_append_many: when the new items do not fit, the capacity
        starts at NOB_DA_INIT_CAP if it was 0 and doubles until they fit;
        the new items are copied after the existing ones. */
    method AppendMany(xs: seq<T>)
      requires Valid()
      modifies this, items
      ensures Valid() && (items == old(items) || fresh(items))
      ensures Contents() == old(Contents()) + xs
      ensures old(count) + |xs| <= old(items.Length) ==> items.Length == old(items.Length)
      ensures old(count) + |xs| > old(items.Length) ==>
        items.Length == Doubled(if old(items.Length) == 0 then initCap else old(items.Length), old(count) + |xs|)
    {
      if count + |xs| > items.Length {
        var cap := GrowCapacity(items.Length, initCap, count + |xs|);
        Realloc(cap);
      }
      CopyAfter(items, count, xs);
      count := count + |xs|;
    }

    /** nob_da_resize: the capacity becomes `newSize` only when that is
        larger; the count becomes `newSize` and the items that remain keep
        their values. */
    method Resize(newSize: nat)
      requires Valid()
      modifies this
      ensures Valid()
      ensures count == newSize
      ensures items.Length == Max(old(items.Length), newSize)
      ensures newSize <= old(items.Length) ==> items == old(items)
      ensures Contents()[..Min(old(count), newSize)] == old(Contents())[..Min(old(count), newSize)]
    {
      if newSize > items.Length {
        Realloc(newSize);
      }
      count := newSize;
    }

    /** nob_da_last: the final item of a non-empty array. */
    function Last(): (x: T)
      reads this, items
      requires Valid() && count > 0
      ensures x == Contents()[|Contents()| - 1]
    {
      items[count - 1]
    }

    /** nob_da_remove_unordered: the last item moves into slot j. */
    method RemoveUnordered(j: nat)
      requires Valid() && j < count
      modifies this, items
      ensures Valid() && items == old(items)
      ensures Contents() == RemovedUnordered(old(Contents()), j)
    {
      count := count - 1;
      items[j] := items[count];
    }
  }

  /** The capacity loop of nob_da_append_many: 0 becomes the initial
      capacity, which doubles until `needed` items fit. */
  method GrowCapacity(cap: nat, initCap: nat, needed: nat) returns (newCap: nat)
    requires initCap > 0
    ensures newCap == Doubled(if cap == 0 then initCap else cap, needed)
    ensures newCap >= needed
  {
    newCap := cap;
    if newCap == 0 {
      newCap := initCap;
    }
    ghost var start := newCap;
    while needed > newCap
      invariant newCap > 0 && start > 0
      invariant Doubled(newCap, needed) == Doubled(start, needed)
      decreases needed - newCap
    {
      newCap := newCap * 2;
    }
    DoubledFits(start, needed);
  }

  /** memcpy of `xs` into `a` from slot `at` on. */
  method CopyAfter<T>(a: array<T>, at: nat, xs: seq<T>)
    requires at + |xs| <= a.Length
    modifies a
    ensures a[..at + |xs|] == old(a[..at]) + xs
  {
    ghost var prefix := a[..at];
    var i := 0;
    while i < |xs|
      invariant 0 <= i <= |xs|
      invariant forall k :: 0 <= k < at ==> a[k] == prefix[k]
      invariant forall k :: 0 <= k < i ==> a[at + k] == xs[k]
    {
      a[at + i] := xs[i];
      i := i + 1;
    }
    assert a[..at + |xs|] == prefix + xs;
  }

  /** The sequence left by nob_da_remove_unordered. */
  function RemovedUnordered<T>(s: seq<T>, j: nat): seq<T>
    requires j < |s|
  {
    s[j := s[|s| - 1]][..|s| - 1]
  }

  /** Removing slot j removes exactly one copy of s[j], keeps every other
      slot below the old last one, and leaves one item fewer. */
  lemma RemovedUnorderedLaws<T>(s: seq<T>, j: nat)
    requires j < |s|
    ensures |RemovedUnordered(s, j)| == |s| - 1
    ensures multiset(RemovedUnordered(s, j)) == multiset(s) - multiset{s[j]}
    ensures forall k :: 0 <= k < |s| - 1 && k != j ==> RemovedUnordered(s, j)[k] == s[k]
  {
    if j == |s| - 1 {
      RemovedLastSlot(s);
    } else {
      RemovedInnerSlot(s, j);
    }
  }

  lemma RemovedLastSlot<T>(s: seq<T>)
    requires |s| > 0
    ensures multiset(RemovedUnordered(s, |s| - 1)) == multiset(s) - multiset{s[|s| - 1]}
  {
    var n := |s| - 1;
    assert s == s[..n] + [s[n]];
    assert RemovedUnordered(s, n) == s[..n];
  }

  lemma RemovedInnerSlot<T>(s: seq<T>, j: nat)
    requires j < |s| - 1
    ensures multiset(RemovedUnordered(s, j)) == multiset(s) - multiset{s[j]}
  {
    var n := |s| - 1;
    var r := RemovedUnordered(s, j);
    assert s == s[..j] + [s[j]] + s[j + 1..n] + [s[n]];
    assert r == s[..j] + [s[n]] + s[j + 1..n];
    assert multiset(r) == multiset(s[..j]) + multiset{s[n]} + multiset(s[j + 1..n]);
  }

  // ---------------------------------------------------------------------
  // Temporary allocator

  /** The static buffer `nob_temp` and its fill level `nob_temp_size`. */
  class TempArena {
    var size: nat
    const memory: array<char>

    constructor()
      ensures size == 0 && memory.Length == NOB_TEMP_CAPACITY && fresh(memory)
    {
      size := 0;
      memory := new char[NOB_TEMP_CAPACITY];
    }

    /** nob_temp_alloc: NULL (None) when `n` more bytes would pass the
        capacity, otherwise the offset of the old fill level, which grows
        by `n`. */
    method Alloc(n: nat) returns (p: Option<nat>)
      modifies this
      ensures old(size) + n > NOB_TEMP_CAPACITY ==> p == None && size == old(size)
      ensures old(size) + n <= NOB_TEMP_CAPACITY ==> p == Some(old(size)) && size == old(size) + n
    {
      if size + n > NOB_TEMP_CAPACITY {
        return None;
      }
      p := Some(size);
      size := size + n;
    }

    /** nob_temp_strdup: copies a C string and its terminator into fresh
        temporary memory; running out of it is an assertion failure. */
    method Strdup(s: seq<char>) returns (p: nat)
      requires '\0' !in s
      requires memory.Length == NOB_TEMP_CAPACITY
      requires size + |s| + 1 <= NOB_TEMP_CAPACITY
      modifies this, memory
      ensures p == old(size) && size == old(size) + |s| + 1
      ensures memory[p..p + |s| + 1] == s + ['\0']
      ensures memory[..p] == old(memory[..p])
      ensures memory[p + |s| + 1..] == old(memory[p + |s| + 1..])
    {
      var r := Alloc(|s| + 1);
      p := r.value;
      var i := 0;
      while i < |s|
        invariant 0 <= i <= |s|
        invariant memory[p..p + i] == s[..i]
        invariant memory[..p] == old(memory[..p])
        invariant memory[p + |s| + 1..] == old(memory[p + |s| + 1..])
        modifies memory
      {
        memory[p + i] := s[i];
        i := i + 1;
      }
      memory[p + |s|] := '\0';
      assert memory[p..p + |s| + 1] == memory[p..p + |s|] + [memory[p + |s|]];
    }

    /** nob_temp_save: the current fill level. */
    function Save(): (checkpoint: nat)
      reads this
      ensures checkpoint == size
    {
      size
    }

    /** nob_temp_rewind: the fill level goes back to a checkpoint. */
    method Rewind(checkpoint: nat)
      modifies this
      ensures size == checkpoint
    {
      size := checkpoint;
    }

    /** nob_temp_reset: the whole buffer is free again. */
    method Reset()
      modifies this
      ensures size == 0
    {
      size := 0;
    }
  }

  /** Allocations made between a save and the rewind to it lie above the
      checkpoint, inside the buffer, and are all released: the fill level is
      back where it was. */
  method ScopedTemp(arena: TempArena, sizes: seq<nat>) returns (ptrs: seq<Option<nat>>)
    modifies arena
    ensures |ptrs| == |sizes|
    ensures forall k :: 0 <= k < |ptrs| && ptrs[k].Some? ==>
      old(arena.size) <= ptrs[k].value && ptrs[k].value + sizes[k] <= NOB_TEMP_CAPACITY
    ensures arena.size == old(arena.size)
  {
    var checkpoint := arena.Save();
    ptrs := [];
    var i := 0;
    while i < |sizes|
      invariant 0 <= i <= |sizes| && |ptrs| == i
      invariant checkpoint == old(arena.size) <= arena.size
      invariant forall k :: 0 <= k < i && ptrs[k].Some? ==>
        checkpoint <= ptrs[k].value && ptrs[k].value + sizes[k] <= NOB_TEMP_CAPACITY
    {
      var p := arena.Alloc(sizes[i]);
      ptrs := ptrs + [p];
      i := i + 1;
    }
    arena.Rewind(checkpoint);
  }

  // ---------------------------------------------------------------------
  // Command rendering

  /** One argument as nob_cmd_render writes it: in single quotes when it
      contains a space. */
  function RenderArg(arg: seq<char>): seq<char> {
    if ' ' in arg then ['\''] + arg + ['\''] else arg
  }

  /** Reference definition: the rendered arguments separated by single
      spaces. */
  function JoinRendered(args: seq<seq<char>>): seq<char> {
    if args == [] then []
    else if |args| == 1 then RenderArg(args[0])
    else JoinRendered(args[..|args| - 1]) + [' '] + RenderArg(args[|args| - 1])
  }

  lemma JoinRenderedSnoc(args: seq<seq<char>>, arg: seq<char>)
    ensures JoinRendered(args + [arg]) ==
      (if args == [] then RenderArg(arg) else JoinRendered(args) + [' '] + RenderArg(arg))
  {
    assert (args + [arg])[..|args|] == args;
  }

  /** One loop step of nob_cmd_render: a separating space unless it is the
      first argument, then the argument, quoted when it contains a space. */
  method AppendArg(render: DynArray<char>, arg: seq<char>, first: bool)
    requires render.Valid()
    modifies render, render.items
    ensures render.Valid() && (render.items == old(render.items) || fresh(render.items))
    ensures render.Contents() == old(render.Contents()) + (if first then [] else [' ']) + RenderArg(arg)
  {
    ghost var c0 := render.Contents();
    if !first {
      render.AppendMany(" ");
    }
    ghost var c1 := render.Contents();
    assert c1 == c0 + (if first then [] else [' ']);
    if ' ' !in arg {
      render.AppendMany(arg);
    } else {
      AppendQuoted(render, arg);
    }
  }

  /** The quoted form of an argument: a quote, the argument, a quote. */
  method AppendQuoted(render: DynArray<char>, arg: seq<char>)
    requires render.Valid()
    modifies render, render.items
    ensures render.Valid() && (render.items == old(render.items) || fresh(render.items))
    ensures render.Contents() == old(render.Contents()) + (['\''] + arg + ['\''])
  {
    render.Append('\'');
    render.AppendMany(arg);
    render.Append('\'');
  }

  /** nob_cmd_render: appends the rendering of the arguments before the
      first NULL to the builder. */
  method CmdRender(cmd: seq<Option<seq<char>>>, render: DynArray<char>)
    requires render.Valid()
    modifies render, render.items
    ensures render.Valid()
    ensures render.Contents() == old(render.Contents()) + JoinRendered(BeforeNull(cmd))
  {
    ghost var start := render.Contents();
    ghost var args := BeforeNull(cmd);
    var i := 0;
    while i < |cmd|
      invariant 0 <= i <= |cmd|
      invariant i <= |args|
      invariant render.Valid()
      invariant render.Contents() == start + JoinRendered(args[..i])
      invariant render.items == old(render.items) || fresh(render.items)
    {
      if cmd[i].None? {
        break;
      }
      var arg := cmd[i].value;
      RenderPrefixStep(cmd, i);
      AppendArg(render, arg, i == 0);
      ConcatAssoc(start, JoinRendered(args[..i]), if i == 0 then [] else [' '], RenderArg(arg));
      i := i + 1;
    }
    assert args[..i] == args;
  }

  /** One more argument before the first NULL extends the rendering by a
      separator (none before the first) and that argument. */
  lemma RenderPrefixStep(cmd: seq<Option<seq<char>>>, i: nat)
    requires i < |cmd| && cmd[i].Some? && i <= |BeforeNull(cmd)|
    ensures i < |BeforeNull(cmd)|
    ensures JoinRendered(BeforeNull(cmd)[..i + 1]) ==
      JoinRendered(BeforeNull(cmd)[..i]) + (if i == 0 then [] else [' ']) + RenderArg(cmd[i].value)
  {
    var args := BeforeNull(cmd);
    assert args[..i + 1] == args[..i] + [cmd[i].value];
    JoinRenderedSnoc(args[..i], cmd[i].value);
  }

  lemma ConcatAssoc<T>(a: seq<T>, b: seq<T>, c: seq<T>, d: seq<T>)
    ensures a + b + c + d == a + (b + c + d)
  {
  }

  /** A NULL ends the command: nothing after it is rendered. */
  lemma {:induction false} RenderStopsAtNull(cmd: seq<Option<seq<char>>>, k: nat)
    requires k < |cmd| && cmd[k] == None
    ensures BeforeNull(cmd) == BeforeNull(cmd[..k])
  {
    if k > 0 && cmd[0].Some? {
      assert cmd[1..][..k - 1] == cmd[..k][1..];
      RenderStopsAtNull(cmd[1..], k - 1);
    }
  }

  /** The rendering of a command line whose last argument holds a space. */
  lemma RenderQuotesSpaces()
    ensures JoinRendered(["cc", "-o", "a b"]) == "cc -o 'a b'"
  {
    var args: seq<seq<char>> := ["cc", "-o", "a b"];
    assert args[..2][..1] == ["cc"];
    assert args[..2] == ["cc", "-o"];
    assert ' ' in args[2];
  }

  // ---------------------------------------------------------------------
  // Paths

  /** nob_path_name (POSIX): the part after the last '/', or the whole path
      when it has none. */
  function PathName(path: seq<char>): (r: seq<char>)
    ensures |r| <= |path| && r == path[|path| - |r|..]
    ensures '/' !in r
    ensures r == path || path[|path| - |r| - 1] == '/'
  {
    if path == [] then []
    else if path[|path| - 1] == '/' then []
    else PathName(path[..|path| - 1]) + [path[|path| - 1]]
  }
}
