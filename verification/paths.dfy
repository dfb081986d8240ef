/** Path canonicalisation of fs/vfs.c.

`Canonical` is the meaning of an absolute path: its components, walked over a
stack that '.' leaves alone and '..' pops, written out again. The code cuts a
scratch buffer in place and keeps the positions of the components that stand. */
module Paths {
  import opened CStrings

  /** The size of the scratch buffer: 16 names of 255 characters. */
  const SCRATCH: nat := 4080
  const MAX_PARTS: nat := 64

  // ---------------------------------------------------------------------
  // The meaning of a path
  // ---------------------------------------------------------------------

  /** How far the first component of `s` reaches. */
  function NameLength(s: string): (n: nat)
    ensures n <= |s| && (forall i | 0 <= i < n :: s[i] != '/') && (n < |s| ==> s[n] == '/')
  {
    if s == [] || s[0] == '/' then 0 else 1 + NameLength(s[1..])
  }

  function Components(s: string): seq<string>
    decreases |s|
  {
    if s == [] then []
    else if s[0] == '/' then Components(s[1..])
    else [s[..NameLength(s)]] + Components(s[NameLength(s)..])
  }

  function Visit(stack: seq<string>, c: string): seq<string> {
    if c == "." then stack
    else if c == ".." then (if stack == [] then [] else stack[..|stack| - 1])
    else stack + [c]
  }

  function Walk(stack: seq<string>, comps: seq<string>): seq<string>
    decreases |comps|
  {
    if comps == [] then stack else Walk(Visit(stack, comps[0]), comps[1..])
  }

  /** The stack never gets deeper than the code has room for. */
  predicate Shallow(stack: seq<string>, comps: seq<string>)
    decreases |comps|
  {
    |stack| <= MAX_PARTS && (comps == [] || Shallow(Visit(stack, comps[0]), comps[1..]))
  }

  /** A step and a walk that have room for 64 components; a further one is dropped. */
  function VisitCapped(stack: seq<string>, c: string): seq<string> {
    if c == "." then stack
    else if c == ".." then (if stack == [] then [] else stack[..|stack| - 1])
    else if |stack| < MAX_PARTS then stack + [c]
    else stack
  }

  function WalkCapped(stack: seq<string>, comps: seq<string>): seq<string>
    decreases |comps|
  {
    if comps == [] then stack else WalkCapped(VisitCapped(stack, comps[0]), comps[1..])
  }

  /** The first `n` components written into a buffer of `size`: one that does not fit
      is left out, its slash is not. */
  function Fitted(stack: seq<string>, n: nat, size: nat): string
    requires n <= |stack| && size >= 2
  {
    if n == 0 then "/"
    else
      var out := Fitted(stack, n - 1, size);
      if |out| >= size - 1 then out
      else
        var more := if n > 1 then out + "/" else out;
        if |more| + |stack[n - 1]| < size - 1 then more + stack[n - 1] else more
  }

  /** What the scratch buffer takes of a path. */
  function Cut(path: string): string {
    if |path| < SCRATCH then path else path[..SCRATCH - 1]
  }

  /** What the code makes of a path, whatever its length. */
  function Resolved(path: string, size: nat): string {
    if size < 2 then []
    else var stack := WalkCapped([], Components(Cut(path))); Fitted(stack, |stack|, size)
  }

  /** Components with a slash before each. */
  function Slashed(stack: seq<string>): string {
    if stack == [] then [] else Slashed(stack[..|stack| - 1]) + "/" + stack[|stack| - 1]
  }

  function Render(stack: seq<string>): string {
    if stack == [] then "/" else Slashed(stack)
  }

  function Canonical(path: string): string {
    Render(Walk([], Components(path)))
  }

  // ---------------------------------------------------------------------
  // Properties of the meaning
  // ---------------------------------------------------------------------

  predicate Name(c: string) {
    c != [] && c != "." && c != ".." && forall i | 0 <= i < |c| :: c[i] != '/'
  }

  predicate Plain(c: string) {
    c != [] && forall i | 0 <= i < |c| :: c[i] != '/'
  }

  predicate Names(stack: seq<string>) {
    forall i | 0 <= i < |stack| :: Name(stack[i])
  }

  lemma {:induction false} ComponentsPlain(s: string)
    ensures forall i | 0 <= i < |Components(s)| :: Plain(Components(s)[i])
    decreases |s|
  {
    if s != [] && s[0] == '/' {
      ComponentsPlain(s[1..]);
    } else if s != [] {
      ComponentsPlain(s[NameLength(s)..]);
    }
  }

  lemma {:induction false} WalkNames(stack: seq<string>, comps: seq<string>)
    requires Names(stack) && forall i | 0 <= i < |comps| :: Plain(comps[i])
    ensures Names(Walk(stack, comps))
    decreases |comps|
  {
    if comps != [] {
      WalkNames(Visit(stack, comps[0]), comps[1..]);
    }
  }

  /** A canonical path has no empty component, no '.' and no '..'. */
  lemma CanonicalNames(path: string)
    ensures Names(Walk([], Components(path)))
  {
    ComponentsPlain(path);
    WalkNames([], Components(path));
  }

  /** Names are walked as they are. */
  lemma {:induction false} WalkStays(stack: seq<string>, names: seq<string>)
    requires Names(names)
    ensures Walk(stack, names) == stack + names
    decreases |names|
  {
    if names != [] {
      WalkStays(stack + [names[0]], names[1..]);
      assert stack + [names[0]] + names[1..] == stack + names;
    }
  }

  lemma {:induction false} NameLengthIs(c: string, rest: string)
    requires (forall i | 0 <= i < |c| :: c[i] != '/') && (rest == [] || rest[0] == '/')
    ensures NameLength(c + rest) == |c|
  {
    if c == [] {
      assert c + rest == rest;
    } else {
      assert (c + rest)[1..] == c[1..] + rest;
      NameLengthIs(c[1..], rest);
    }
  }

  lemma ComponentsName(c: string, rest: string)
    requires Plain(c) && (rest == [] || rest[0] == '/')
    ensures Components("/" + c + rest) == [c] + Components(rest)
  {
    var s := "/" + c + rest;
    assert s[1..] == c + rest;
    NameLengthIs(c, rest);
    assert (c + rest)[..|c|] == c && (c + rest)[|c|..] == rest;
  }

  lemma Regroup(a: string, c: string, rest: string)
    ensures a + "/" + c + rest == a + ("/" + c + rest)
  {
  }

  lemma {:induction false} ComponentsSlashed(stack: seq<string>, rest: string)
    requires Names(stack) && (rest == [] || rest[0] == '/')
    ensures Components(Slashed(stack) + rest) == stack + Components(rest)
    decreases |stack|
  {
    hide Components;
    if stack == [] {
      assert Slashed(stack) + rest == rest;
    } else {
      var init, c := stack[..|stack| - 1], stack[|stack| - 1];
      Regroup(Slashed(init), c, rest);
      ComponentsSlashed(init, "/" + c + rest);
      ComponentsName(c, rest);
      assert init + ([c] + Components(rest)) == stack + Components(rest);
    }
  }

  /** Writing out a stack and splitting it again. */
  lemma ComponentsRender(stack: seq<string>)
    requires Names(stack)
    ensures Components(Render(stack)) == stack
  {
    if stack == [] {
      assert "/"[1..] == [];
    } else {
      ComponentsSlashed(stack, []);
      assert Slashed(stack) + [] == Slashed(stack);
    }
  }

  /** Canonicalising twice is canonicalising once. */
  lemma CanonicalTwice(path: string)
    ensures Canonical(Canonical(path)) == Canonical(path)
  {
    var stack := Walk([], Components(path));
    CanonicalNames(path);
    ComponentsRender(stack);
    WalkStays([], stack);
    assert [] + stack == stack;
  }

  lemma {:induction false} ComponentsAppend(s: string, rest: string)
    requires rest == [] || rest[0] == '/'
    ensures Components(s + rest) == Components(s) + Components(rest)
    decreases |s|
  {
    if s == [] {
      assert s + rest == rest;
    } else if s[0] == '/' {
      assert (s + rest)[1..] == s[1..] + rest;
      ComponentsAppend(s[1..], rest);
    } else {
      var n := NameLength(s);
      assert s + rest == s[..n] + (s[n..] + rest);
      NameLengthIs(s[..n], s[n..] + rest);
      assert (s + rest)[..n] == s[..n] && (s + rest)[n..] == s[n..] + rest;
      ComponentsAppend(s[n..], rest);
    }
  }

  lemma {:induction false} WalkAppend(stack: seq<string>, a: seq<string>, b: seq<string>)
    ensures Walk(stack, a + b) == Walk(Walk(stack, a), b)
    decreases |a|
  {
    if a == [] {
      assert a + b == b;
    } else {
      assert (a + b)[1..] == a[1..] + b;
      WalkAppend(Visit(stack, a[0]), a[1..], b);
    }
  }

  // What follows fixes `Canonical` for every path, component by component.

  /** One more component, after any number of slashes. */
  lemma WalkOne(path: string, c: string)
    requires Plain(c)
    ensures Components(path + "/" + c) == Components(path) + [c]
    ensures Walk([], Components(path + "/" + c)) == Visit(Walk([], Components(path)), c)
  {
    ComponentsAppend(path, "/" + c);
    assert path + "/" + c == path + ("/" + c);
    ComponentsName(c, []);
    assert "/" + c + [] == "/" + c;
    WalkAppend([], Components(path), [c]);
    assert [c][1..] == [];
  }

  /** The root, and slashes that stand alone. */
  lemma RootAndSlashes(path: string, rest: string)
    ensures Canonical("") == Canonical("/") == "/"
    ensures Canonical(path + "/") == Canonical(path)
    ensures Canonical(path + "//" + rest) == Canonical(path + "/" + rest)
  {
    ComponentsAppend(path, "/");
    assert "/"[1..] == [];
    assert Components(path) + [] == Components(path);
    ComponentsAppend(path, "//" + rest);
    ComponentsAppend(path, "/" + rest);
    assert ("//" + rest)[1..] == "/" + rest;
    assert path + "//" + rest == path + ("//" + rest);
    assert path + "/" + rest == path + ("/" + rest);
  }

  /** A name goes to the end. */
  lemma NameAdded(path: string, c: string)
    requires Name(c)
    ensures Canonical(path + "/" + c) == if Canonical(path) == "/" then "/" + c else Canonical(path) + "/" + c
  {
    hide Components, Walk;
    var stack := Walk([], Components(path));
    WalkOne(path, c);
    CanonicalNames(path);
    RenderRoot(stack);
    assert (stack + [c])[..|stack|] == stack;
    if stack == [] {
      assert Slashed([]) + "/" + c == "/" + c;
    }
  }

  /** '.' changes nothing. */
  lemma DotStays(path: string)
    ensures Canonical(path + "/.") == Canonical(path)
  {
    hide Components, Walk, Render;
    WalkOne(path, ".");
    assert path + "/" + "." == path + "/.";
  }

  /** '..' takes back the name before it, and at the root it stays. */
  lemma ParentOf(path: string, c: string)
    requires Name(c)
    ensures Canonical(path + "/" + c + "/..") == Canonical(path)
    ensures Canonical(path) == "/" ==> Canonical(path + "/..") == "/"
  {
    hide Components, Walk;
    var stack := Walk([], Components(path));
    WalkOne(path, c);
    WalkOne(path + "/" + c, "..");
    assert path + "/" + c + "/" + ".." == path + "/" + c + "/..";
    assert (stack + [c])[..|stack|] == stack;
    WalkOne(path, "..");
    assert path + "/" + ".." == path + "/..";
    CanonicalNames(path);
    RenderRoot(stack);
  }

  lemma RenderRoot(stack: seq<string>)
    requires Names(stack)
    ensures Render(stack) == "/" <==> stack == []
  {
    hide Components;
    if Render(stack) == "/" {
      ComponentsRender(stack);
      ComponentsRender([]);
    }
  }

  /** A path may be replaced by its canonical form. */
  lemma CanonicalCongruent(path: string, rest: string)
    ensures Canonical(Canonical(path) + "/" + rest) == Canonical(path + "/" + rest)
  {
    hide Components, Walk, Render;
    var a, stack := Canonical(path), Walk([], Components(path));
    CanonicalNames(path);
    ComponentsRender(stack);
    WalkStays([], stack);
    assert [] + stack == stack;
    ComponentsAppend(a, "/" + rest);
    ComponentsAppend(path, "/" + rest);
    assert a + "/" + rest == a + ("/" + rest) && path + "/" + rest == path + ("/" + rest);
    WalkAppend([], Components(path), Components("/" + rest));
    WalkAppend([], stack, Components("/" + rest));
  }

  // ---------------------------------------------------------------------
  // Sizes
  // ---------------------------------------------------------------------

  function Size(comps: seq<string>): nat {
    if comps == [] then 0 else Size(comps[..|comps| - 1]) + 1 + |comps[|comps| - 1]|
  }

  lemma {:induction false} SizeSlashed(stack: seq<string>)
    ensures |Slashed(stack)| == Size(stack)
  {
    if stack != [] {
      SizeSlashed(stack[..|stack| - 1]);
    }
  }

  lemma {:induction false} SizeFirst(c: string, comps: seq<string>)
    ensures Size([c] + comps) == 1 + |c| + Size(comps)
  {
    if comps == [] {
      assert ([c] + comps)[..0] == [];
    } else {
      var t := [c] + comps;
      assert t[..|t| - 1] == [c] + comps[..|comps| - 1];
      SizeFirst(c, comps[..|comps| - 1]);
    }
  }

  lemma {:induction false} SizeComponents(s: string)
    ensures Size(Components(s)) <= |s| + if s == [] || s[0] == '/' then 0 else 1
    decreases |s|
  {
    if s != [] && s[0] == '/' {
      SizeComponents(s[1..]);
    } else if s != [] {
      var n := NameLength(s);
      SizeFirst(s[..n], Components(s[n..]));
      SizeComponents(s[n..]);
    }
  }

  lemma {:induction false} SizeWalk(stack: seq<string>, comps: seq<string>)
    ensures Size(Walk(stack, comps)) <= Size(stack) + Size(comps)
    decreases |comps|
  {
    if comps != [] {
      SizeWalk(Visit(stack, comps[0]), comps[1..]);
      assert comps == [comps[0]] + comps[1..];
      SizeFirst(comps[0], comps[1..]);
      assert (stack + [comps[0]])[..|stack|] == stack;
    }
  }

  /** A canonical path is no longer than the path. */
  lemma CanonicalShorter(path: string)
    requires path != [] && path[0] == '/'
    ensures |Canonical(path)| <= |path|
  {
    SizeComponents(path);
    SizeWalk([], Components(path));
    SizeSlashed(Walk([], Components(path)));
  }

  // ---------------------------------------------------------------------
  // Limits
  // ---------------------------------------------------------------------

  /** A walk that stays within 64 components is the walk. */
  lemma {:induction false} CappedShallow(stack: seq<string>, comps: seq<string>)
    requires Shallow(stack, comps)
    ensures WalkCapped(stack, comps) == Walk(stack, comps)
    decreases |comps|
  {
    if comps != [] {
      assert |Visit(stack, comps[0])| <= MAX_PARTS;
      CappedShallow(Visit(stack, comps[0]), comps[1..]);
    }
  }

  lemma {:induction false} CappedAppend(stack: seq<string>, a: seq<string>, b: seq<string>)
    ensures WalkCapped(stack, a + b) == WalkCapped(WalkCapped(stack, a), b)
    decreases |a|
  {
    if a == [] {
      assert a + b == b;
    } else {
      assert (a + b)[1..] == a[1..] + b;
      CappedAppend(VisitCapped(stack, a[0]), a[1..], b);
    }
  }

  lemma CappedOne(path: string, c: string)
    requires Plain(c)
    ensures WalkCapped([], Components(path + "/" + c)) == VisitCapped(WalkCapped([], Components(path)), c)
  {
    WalkOne(path, c);
    CappedAppend([], Components(path), [c]);
    assert [c][1..] == [];
  }

  /** The parts that stand after one more component, also beyond 64: a name is
      dropped then, and '..' still takes back the last part that stands. */
  lemma CappedSteps(path: string, c: string)
    requires Name(c)
    ensures var parts := WalkCapped([], Components(path));
            && WalkCapped([], Components(path + "/.")) == parts
            && (|parts| < MAX_PARTS ==>
                  && WalkCapped([], Components(path + "/" + c)) == parts + [c]
                  && WalkCapped([], Components(path + "/" + c + "/..")) == parts)
            && (|parts| == MAX_PARTS ==>
                  && WalkCapped([], Components(path + "/" + c)) == parts
                  && WalkCapped([], Components(path + "/" + c + "/..")) == parts[..MAX_PARTS - 1])
  {
    hide Components, WalkCapped;
    CappedOne(path, ".");
    assert path + "/" + "." == path + "/.";
    CappedOne(path, c);
    CappedOne(path + "/" + c, "..");
    assert path + "/" + c + "/" + ".." == path + "/" + c + "/..";
  }

  /** Of more than 64 names the first 64 are kept. */
  lemma {:induction false} CappedNames(stack: seq<string>, names: seq<string>)
    requires Names(names) && |stack| <= MAX_PARTS
    ensures WalkCapped(stack, names) ==
            if |stack + names| <= MAX_PARTS then stack + names else (stack + names)[..MAX_PARTS]
    decreases |names|
  {
    if names == [] {
      assert stack + names == stack;
    } else if |stack| < MAX_PARTS {
      CappedNames(stack + [names[0]], names[1..]);
      assert stack + [names[0]] + names[1..] == stack + names;
    } else {
      CappedNames(stack, names[1..]);
      assert (stack + names[1..])[..MAX_PARTS] == stack == (stack + names)[..MAX_PARTS];
    }
  }

  lemma {:induction false} FittedInside(stack: seq<string>, n: nat, size: nat)
    requires n <= |stack| && size >= 2
    ensures var out := Fitted(stack, n, size); 0 < |out| < size && out[0] == '/'
  {
    if n > 0 {
      FittedInside(stack, n - 1, size);
    }
  }

  /** A full buffer takes no more. */
  lemma {:induction false} FittedFull(stack: seq<string>, i: nat, n: nat, size: nat)
    requires i <= n <= |stack| && size >= 2 && |Fitted(stack, i, size)| >= size - 1
    ensures Fitted(stack, n, size) == Fitted(stack, i, size)
    decreases n
  {
    if i < n {
      FittedFull(stack, i, n - 1, size);
    }
  }

  /** A buffer that is large enough takes all of it. */
  lemma {:induction false} FittedAll(stack: seq<string>, n: nat, size: nat)
    requires n <= |stack| && |Render(stack)| + 1 < size
    ensures Fitted(stack, n, size) == Render(stack[..n])
  {
    SlashedGrows(stack, n);
    if n > 0 {
      FittedAll(stack, n - 1, size);
      SlashedGrows(stack, n - 1);
      assert stack[..n][..n - 1] == stack[..n - 1];
      assert stack[..n][n - 1] == stack[n - 1];
    }
  }

  /** And only then. */
  lemma {:induction false} FittedExact(stack: seq<string>, n: nat, size: nat)
    requires n <= |stack| && Names(stack) && size >= 2
    ensures |Fitted(stack, n, size)| <= |Render(stack[..n])|
    ensures n > 0 && |Fitted(stack, n, size)| == |Render(stack[..n])| ==> |Render(stack[..n])| + 1 < size
  {
    if n > 0 {
      FittedExact(stack, n - 1, size);
      assert stack[..n][..n - 1] == stack[..n - 1];
    }
  }

  /** A part that does not fit is left out, its slash is not, and a later one that
      does is still taken. */
  lemma FittedStep(stack: seq<string>, n: nat, size: nat)
    requires 0 < n <= |stack| && Names(stack) && size >= 2
    ensures var before, c := Fitted(stack, n - 1, size), stack[n - 1];
            && (|before| + 1 + |c| < size - 1 ==> Components(Fitted(stack, n, size)) == Components(before) + [c])
            && (|before| + |c| >= size - 1 ==> Components(Fitted(stack, n, size)) == Components(before))
            && (n > 1 && |before| < size - 1 <= |before| + |c| ==> Fitted(stack, n, size) == before + "/")
  {
    hide Components;
    var before, c := Fitted(stack, n - 1, size), stack[n - 1];
    ComponentsName(c, []);
    NoComponents();
    assert "/" + c + [] == "/" + c && before + "/" + c == before + ("/" + c);
    ComponentsAppend(before, "/" + c);
    ComponentsAppend(before, "/");
    ComponentsRender([]);
    assert [c] + [] == [c] && [] + [c] == [c] && Components(before) + [] == Components(before);
  }

  /** There is room for the canonical path, its end mark and one more; the root needs
      less. */
  predicate Roomy(path: string, size: nat) {
    |Canonical(path)| + 1 < size || (Canonical(path) == "/" && size >= 2)
  }

  /** Within the limits of the code its result is the canonical path if and only if
      the buffer has room. */
  lemma ResolvedCanonical(path: string, size: nat)
    requires InLimits(path)
    ensures Resolved(path, size) == Canonical(path) <==> Roomy(path, size)
  {
    hide Components, Walk, WalkCapped, Shallow;
    var stack := Walk([], Components(path));
    CappedShallow([], Components(path));
    CanonicalNames(path);
    assert stack[..|stack|] == stack;
    RenderRoot(stack);
    if |Canonical(path)| + 1 < size {
      FittedAll(stack, |stack|, size);
    } else if size >= 2 {
      FittedExact(stack, |stack|, size);
    }
  }

  /** Beyond them it is not: 65 names in a row lose the last. */
  lemma DeepPathCut(names: seq<string>, size: nat)
    requires Names(names) && |names| > MAX_PARTS && |Slashed(names)| < SCRATCH && |Slashed(names)| + 1 < size
    ensures Resolved(Slashed(names), size) == Slashed(names[..MAX_PARTS]) != Canonical(Slashed(names))
  {
    hide Components, Walk, WalkCapped, Fitted, Slashed;
    var path, kept := Slashed(names), names[..MAX_PARTS];
    ComponentsRender(names);
    ComponentsRender(kept);
    assert [] + names == names;
    WalkStays([], names);
    CappedNames([], names);
    SlashedGrows(names, MAX_PARTS);
    FittedAll(kept, MAX_PARTS, size);
    assert kept[..MAX_PARTS] == kept;
  }

  /** Of the paths made of names alone, those with at most 64 are resolved
      correctly, and no others. */
  lemma NamesExact(names: seq<string>, size: nat)
    requires Names(names) && |Slashed(names)| < SCRATCH && |Canonical(Slashed(names))| + 1 < size
    ensures Resolved(Slashed(names), size) == Canonical(Slashed(names)) <==> |names| <= MAX_PARTS
  {
    hide Walk, WalkCapped, Fitted;
    ComponentsRender(names);
    assert [] + names == names;
    WalkStays([], names);
    if |names| <= MAX_PARTS {
      NamesShallow([], names);
      ResolvedCanonical(Slashed(names), size);
    } else {
      DeepPathCut(names, size);
    }
  }

  // ---------------------------------------------------------------------
  // The code
  // ---------------------------------------------------------------------

  lemma DropSlash(s: string)
    requires s != [] && s[0] == '/'
    ensures Components(s) == Components(s[1..])
  {
  }

  /** The next component at or after `p`, if any, cut out of the buffer. `q` is
      where the rest starts, and nothing up to `start` was changed. */
  method NextName(buf: array<char>, p: nat) returns (found: bool, start: nat, q: nat)
    requires p < buf.Length && buf[buf.Length - 1] == NUL
    modifies buf
    ensures p <= start <= q < buf.Length && buf[buf.Length - 1] == NUL
    ensures forall i | 0 <= i <= start :: buf[i] == old(buf[i])
    ensures var comps := old(Components(CString(buf[..], p)));
            if comps == [] then !found
            else
              && found && start < q && CString(buf[..], start) == comps[0] != []
              && Components(CString(buf[..], q)) == comps[1..] && start + |comps[0]| <= q
  {
    hide CString, Components;
    start := p;
    while buf[start] == '/'
      invariant p <= start < buf.Length && buf[..] == old(buf[..]) && buf[buf.Length - 1] == NUL
      invariant Components(CString(buf[..], start)) == Components(CString(buf[..], p))
      decreases buf.Length - start
    {
      SlashFirst(buf[..], start);
      start := start + 1;
    }
    q := start;
    CStringEmpty(buf[..], start);
    if buf[start] == NUL {
      found := false;
      NoComponents();
      return;
    }
    found := true;
    q := NameEnd(buf, start);
    ghost var b := buf[..];
    ghost var s, n := CString(b, start), q - start;
    CStringLength(b, start);
    FirstComponent(s);
    CStringFrom(b, start, n);
    if buf[q] != NUL {
      CStringCut(b, start, n);
      CStringFrom(b, start, n + 1);
      assert s[n..][1..] == s[n + 1..];
      DropSlash(s[n..]);
      buf[q] := NUL;
      assert buf[..] == b[q := NUL];
      q := q + 1;
      CStringSame(b, buf[..], q);
    } else {
      assert s[..n] == s;
    }
  }

  lemma NoComponents()
    ensures Components([]) == []
  {
  }

  lemma FirstComponent(s: string)
    requires s != [] && s[0] != '/'
    ensures Components(s) == [s[..NameLength(s)]] + Components(s[NameLength(s)..]) && NameLength(s) > 0
  {
  }

  lemma SlashFirst(s: string, p: nat)
    requires p < |s| && s[p] == '/'
    ensures p + 1 <= |s| && Components(CString(s, p + 1)) == Components(CString(s, p))
  {
    assert CString(s, p)[1..] == CString(s, p + 1);
  }

  method NameEnd(buf: array<char>, p: nat) returns (q: nat)
    requires p < buf.Length && buf[buf.Length - 1] == NUL
    ensures p <= q < buf.Length && q - p == NameLength(CString(buf[..], p))
    ensures buf[q] == NUL <==> q - p == |CString(buf[..], p)|
    ensures buf[q] != NUL ==> buf[q] == '/'
  {
    hide CString;
    ghost var s := CString(buf[..], p);
    CStringLength(buf[..], p);
    q := p;
    while buf[q] != NUL && buf[q] != '/'
      invariant p <= q < buf.Length && q - p <= |s|
      invariant NameLength(s) == q - p + NameLength(s[q - p..])
      decreases buf.Length - q
    {
      assert s[q - p..][1..] == s[q + 1 - p..];
      q := q + 1;
    }
  }

  lemma Dots(s: string, p: nat)
    requires p + 2 < |s| || (p + 1 < |s| && (s[p] == NUL || s[p + 1] == NUL))
    ensures CString(s, p) == "." <==> s[p] == '.' && s[p + 1] == NUL
    ensures CString(s, p) == ".." <==> s[p] == '.' && s[p + 1] == '.' && s[p + 2] == NUL
  {
    var c := CString(s, p);
    if s[p] != NUL {
      assert c == [s[p]] + CString(s, p + 1);
      if s[p + 1] != NUL {
        assert c[1..] == CString(s, p + 1) == [s[p + 1]] + CString(s, p + 2);
        assert c[2..] == CString(s, p + 2);
        assert s[p + 2] == NUL ==> c == [s[p], s[p + 1]];
        assert s[p + 2] != NUL ==> |c| > 2;
      } else {
        assert c == [s[p]];
      }
    }
  }

  /** The parts that stand are where `parts` says. */
  ghost predicate Standing(buf: string, parts: seq<nat>, stack: seq<string>, p: nat) {
    && |stack| <= |parts|
    && forall k | 0 <= k < |stack| ::
         parts[k] < |buf| && CString(buf, parts[k]) == stack[k] && parts[k] + |stack[k]| <= p < |buf|
  }

  lemma StandingLater(buf: string, parts: seq<nat>, stack: seq<string>, p: nat, buf': string, q: nat)
    requires Standing(buf, parts, stack, p) && |buf'| == |buf| && p <= q < |buf|
    requires forall i | 0 <= i <= p :: buf'[i] == buf[i]
    ensures Standing(buf', parts, stack, q)
  {
    hide CString;
    forall k | 0 <= k < |stack|
      ensures CString(buf', parts[k]) == stack[k]
    {
      CStringLocal(buf, buf', parts[k]);
    }
  }

  lemma Popped(buf: string, parts: seq<nat>, stack: seq<string>, p: nat)
    requires Standing(buf, parts, stack, p) && stack != []
    ensures Standing(buf, parts, stack[..|stack| - 1], p)
  {
    hide CString;
    var less := stack[..|stack| - 1];
    forall k | 0 <= k < |less|
      ensures parts[k] < |buf| && CString(buf, parts[k]) == less[k] && parts[k] + |less[k]| <= p < |buf|
    {
      assert less[k] == stack[k];
    }
  }

  lemma Pushed(buf: string, parts: seq<nat>, stack: seq<string>, p: nat, start: nat)
    requires Standing(buf, parts, stack, p) && |stack| < |parts| && start < |buf|
    requires start + |CString(buf, start)| <= p < |buf|
    ensures Standing(buf, parts[|stack| := start], stack + [CString(buf, start)], p)
  {
    hide CString;
    var more, at := stack + [CString(buf, start)], parts[|stack| := start];
    forall k | 0 <= k < |more|
      ensures at[k] < |buf| && CString(buf, at[k]) == more[k] && at[k] + |more[k]| <= p < |buf|
    {
      assert k < |stack| ==> more[k] == stack[k] && at[k] == parts[k];
    }
  }

  /** The first half of vfs_canonicalize. */
  method Tokenise(buf: array<char>) returns (parts: array<nat>, depth: nat, ghost stack: seq<string>, ghost p: nat)
    requires buf.Length > 0 && buf[buf.Length - 1] == NUL
    modifies buf
    ensures fresh(parts) && depth == |stack| && Standing(buf[..], parts[..], stack, p)
    ensures stack == WalkCapped([], old(Components(CString(buf[..], 0))))
  {
    hide CString, Components, Standing;
    parts := new nat[MAX_PARTS](_ => 0);
    depth, stack := 0, [];
    var at := 0;
    ghost var comps := Components(CString(buf[..], 0));
    ghost var rest := comps;
    NoneStanding(buf[..], parts[..], 0);
    while buf[at] != NUL
      invariant at < buf.Length && buf[buf.Length - 1] == NUL && depth == |stack| <= MAX_PARTS == parts.Length
      invariant rest == Components(CString(buf[..], at)) && Standing(buf[..], parts[..], stack, at)
      invariant WalkCapped(stack, rest) == WalkCapped([], comps)
      decreases buf.Length - at, |rest|
    {
      ghost var b := buf[..];
      var found, start, q := NextName(buf, at);
      StandingLater(b, parts[..], stack, at, buf[..], q);
      at := q;
      if !found {
        break;
      }
      depth, stack := Place(buf, parts, depth, stack, start, q);
      rest := rest[1..];
    }
    p := at;
    CStringEmpty(buf[..], at);
    NoComponents();
  }

  lemma NoneStanding(buf: string, parts: seq<nat>, p: nat)
    ensures Standing(buf, parts, [], p)
  {
  }

  /** One component takes its place. */
  method Place(buf: array<char>, parts: array<nat>, depth: nat, ghost stack: seq<string>, start: nat, ghost q: nat)
    returns (depth': nat, ghost stack': seq<string>)
    requires depth == |stack| <= MAX_PARTS == parts.Length && Standing(buf[..], parts[..], stack, q)
    requires start < q < buf.Length && start + |CString(buf[..], start)| <= q && CString(buf[..], start) != []
    requires buf[buf.Length - 1] == NUL
    modifies parts
    ensures depth' == |stack'| <= MAX_PARTS && Standing(buf[..], parts[..], stack', q)
    ensures stack' == VisitCapped(stack, CString(buf[..], start))
  {
    hide CString, Standing;
    CStringLength(buf[..], start);
    Dots(buf[..], start);
    if buf[start] == '.' && buf[start + 1] == NUL {
      return depth, stack;
    } else if buf[start] == '.' && buf[start + 1] == '.' && buf[start + 2] == NUL {
      if depth > 0 {
        Popped(buf[..], parts[..], stack, q);
        return depth - 1, stack[..|stack| - 1];
      }
      return depth, stack;
    } else {
      if depth < MAX_PARTS {
        Pushed(buf[..], parts[..], stack, q, start);
        ghost var ps := parts[..];
        parts[depth] := start;
        assert parts[..] == ps[depth := start];
        return depth + 1, stack + [CString(buf[..], start)];
      }
      return depth, stack;
    }
  }

  lemma {:induction false} SlashedGrows(stack: seq<string>, n: nat)
    requires n <= |stack|
    ensures |Slashed(stack[..n])| <= |Slashed(stack)|
  {
    if n < |stack| {
      SlashedGrows(stack[..|stack| - 1], n);
      assert stack[..|stack| - 1][..n] == stack[..n];
    } else {
      assert stack[..n] == stack;
    }
  }

  /** The second half of vfs_canonicalize: what goes into a buffer of `size`. */
  method Rebuild(buf: array<char>, parts: array<nat>, depth: nat, ghost stack: seq<string>, ghost p: nat, size: nat)
    returns (out: string)
    requires depth == |stack| && Standing(buf[..], parts[..], stack, p)
    ensures out == if size < 2 then [] else Fitted(stack, |stack|, size)
  {
    hide CString;
    if size < 2 {
      return [];
    }
    out := "/";
    var i := 0;
    while i < depth && |out| < size - 1
      invariant i <= depth && out == Fitted(stack, i, size)
    {
      assert CString(buf[..], parts[i]) == stack[i];
      if i > 0 && |out| < size - 1 {
        out := out + "/";
      }
      var name := CString(buf[..], parts[i]);
      if |out| + |name| < size - 1 {
        out := out + name;
      }
      i := i + 1;
    }
    if i < depth {
      FittedFull(stack, i, depth, size);
    }
  }

  /** The path fits the scratch buffer and never has more than 64 parts. */
  predicate InLimits(path: string) {
    |path| < SCRATCH && Shallow([], Components(path))
  }

  /** vfs_canonicalize, into a buffer of `size` characters. */
  method Canonicalise(path: string, size: nat) returns (out: string)
    requires forall i | 0 <= i < |path| :: path[i] != NUL
    ensures out == Resolved(path, size)
    ensures size >= 2 ==> 0 < |out| < size && out[0] == '/'
    ensures |path| >= SCRATCH ==> out == Resolved(path[..SCRATCH - 1], size)
    ensures InLimits(path) ==> (out == Canonical(path) <==> Roomy(path, size))
  {
    hide CString, Components, Shallow, Walk, WalkCapped, Fitted, Canonical, Roomy;
    var text := if |path| < SCRATCH then path else path[..SCRATCH - 1];
    var buf := new char[SCRATCH](i requires 0 <= i < SCRATCH => if i < |text| then text[i] else NUL);
    assert buf[..] == text + seq(SCRATCH - |text|, _ => NUL);
    CStringPadded(text, SCRATCH - |text|, 0);
    assert text[0..] == text;
    var parts, depth, stack, p := Tokenise(buf);
    out := Rebuild(buf, parts, depth, stack, p, size);
    if size >= 2 {
      FittedInside(stack, |stack|, size);
    }
    if InLimits(path) {
      ResolvedCanonical(path, size);
    }
  }

  /** Canonical paths stay within the limits of their paths. */
  lemma CanonicalInLimits(path: string)
    requires path != [] && path[0] == '/' && InLimits(path)
    ensures InLimits(Canonical(path)) && |Canonical(path)| <= |path| && Canonical(path)[0] == '/'
  {
    var stack := Walk([], Components(path));
    CanonicalShorter(path);
    CanonicalNames(path);
    ComponentsRender(stack);
    WalkShallow([], Components(path));
    NamesShallow([], stack);
    RenderAbsolute(stack);
  }

  lemma {:induction false} RenderAbsolute(stack: seq<string>)
    ensures Render(stack) != [] && Render(stack)[0] == '/'
  {
    if |stack| > 1 {
      RenderAbsolute(stack[..|stack| - 1]);
    } else if |stack| == 1 {
      assert Slashed(stack[..0]) + "/" + stack[0] == "/" + stack[0];
    }
  }

  lemma {:induction false} WalkShallow(stack: seq<string>, comps: seq<string>)
    requires Shallow(stack, comps)
    ensures |Walk(stack, comps)| <= MAX_PARTS
    decreases |comps|
  {
    if comps != [] {
      WalkShallow(Visit(stack, comps[0]), comps[1..]);
    }
  }

  lemma {:induction false} NamesShallow(stack: seq<string>, names: seq<string>)
    requires Names(names) && |stack| + |names| <= MAX_PARTS
    ensures Shallow(stack, names)
    decreases |names|
  {
    if names != [] {
      NamesShallow(stack + [names[0]], names[1..]);
    }
  }

  /** The code run on its own result gives the same result. */
  method CanonicaliseTwice(path: string, size: nat) returns (once: string, twice: string)
    requires path != [] && path[0] == '/' && InLimits(path) && |path| + 1 < size
    requires forall i | 0 <= i < |path| :: path[i] != NUL
    ensures once == twice == Canonical(path)
  {
    hide InLimits, Canonical;
    CanonicalInLimits(path);
    CanonicalTwice(path);
    once := Canonicalise(path, size);
    CanonicalClean(path);
    twice := Canonicalise(once, size);
  }

  predicate Clean(s: string) {
    forall i | 0 <= i < |s| :: s[i] != NUL
  }

  lemma CanonicalClean(path: string)
    requires Clean(path)
    ensures Clean(Canonical(path))
  {
    ComponentsClean(path);
    WalkClean([], Components(path));
    SlashedClean(Walk([], Components(path)));
  }

  lemma {:induction false} ComponentsClean(s: string)
    requires Clean(s)
    ensures forall i | 0 <= i < |Components(s)| :: Clean(Components(s)[i])
    decreases |s|
  {
    if s != [] && s[0] == '/' {
      ComponentsClean(s[1..]);
    } else if s != [] {
      ComponentsClean(s[NameLength(s)..]);
    }
  }

  lemma {:induction false} WalkClean(stack: seq<string>, comps: seq<string>)
    requires (forall i | 0 <= i < |stack| :: Clean(stack[i])) && forall i | 0 <= i < |comps| :: Clean(comps[i])
    ensures forall i | 0 <= i < |Walk(stack, comps)| :: Clean(Walk(stack, comps)[i])
    decreases |comps|
  {
    if comps != [] {
      WalkClean(Visit(stack, comps[0]), comps[1..]);
    }
  }

  lemma {:induction false} SlashedClean(stack: seq<string>)
    requires forall i | 0 <= i < |stack| :: Clean(stack[i])
    ensures Clean(Slashed(stack))
  {
    if stack != [] {
      SlashedClean(stack[..|stack| - 1]);
    }
  }
}
