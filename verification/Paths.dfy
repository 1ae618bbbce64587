/** Lexical slash-separated paths: path.Clean, path.Join, path.Dir over lists of segments. */
module Paths {
  import opened Strings

  /** An ordinary name: what a path segment is once the path has been cleaned. */
  predicate Name(seg: string) {
    seg != "" && seg != "." && seg != ".." && '/' !in seg
  }

  ghost predicate Names(segs: seq<string>) {
    forall seg :: seg in segs ==> Name(seg)
  }

  /** One step of path cleaning: what reading seg does to the segments kept so far. */
  function Push(stack: seq<string>, seg: string, rooted: bool): seq<string> {
    if seg == "" || seg == "." then stack
    else if seg != ".." then stack + [seg]
    else if |stack| > 0 && stack[|stack| - 1] != ".." then stack[..|stack| - 1]
    else if rooted then stack
    else stack + [".."]
  }

  function Resolve(stack: seq<string>, segs: seq<string>, rooted: bool): seq<string>
    decreases segs
  {
    if segs == [] then stack
    else Resolve(Push(stack, segs[0], rooted), segs[1..], rooted)
  }

  predicate Rooted(p: string) {
    |p| > 0 && p[0] == '/'
  }

  /** The segments of the cleaned form of p. */
  function CleanSegs(p: string): seq<string> {
    Resolve([], Split(p, '/'), Rooted(p))
  }

  /** path.Clean, which is also filepath.Clean where the separator is a slash. */
  function Clean(p: string): string {
    var segs := CleanSegs(p);
    if Rooted(p) then "/" + Join(segs, '/')
    else if segs == [] then "."
    else Join(segs, '/')
  }

  /** The absolute path of some names. */
  function AbsPath(names: seq<string>): string {
    "/" + Join(names, '/')
  }

  /** path.Join of two elements: empty elements are ignored. */
  function PathJoin(a: string, b: string): string {
    if a != "" then Clean(a + "/" + b)
    else if b != "" then Clean(b)
    else ""
  }

  /** path.Dir */
  function PathDir(p: string): string {
    var parts := Split(p, '/');
    Clean(if |parts| == 1 then "" else Join(parts[..|parts| - 1], '/') + "/")
  }

  lemma {:induction false} ResolveConcat(stack: seq<string>, a: seq<string>, b: seq<string>, rooted: bool)
    ensures Resolve(stack, a + b, rooted) == Resolve(Resolve(stack, a, rooted), b, rooted)
    decreases a
  {
    if a == [] {
      assert a + b == b;
    } else {
      assert (a + b)[1..] == a[1..] + b;
      ResolveConcat(Push(stack, a[0], rooted), a[1..], b, rooted);
    }
  }

  /** Cleaning an absolute path leaves ordinary names only. */
  lemma {:induction false} ResolveRooted(stack: seq<string>, segs: seq<string>)
    requires Names(stack) && Free(segs, '/')
    ensures Names(Resolve(stack, segs, true))
    decreases segs
  {
    if segs != [] {
      assert segs[0] in segs;
      ResolveRooted(Push(stack, segs[0], true), segs[1..]);
    }
  }

  /** Ordinary names pass through cleaning unchanged. */
  lemma {:induction false} ResolveNames(stack: seq<string>, segs: seq<string>, rooted: bool)
    requires Names(segs)
    ensures Resolve(stack, segs, rooted) == stack + segs
    decreases segs
  {
    if segs == [] {
      assert stack + segs == stack;
    } else {
      assert segs[0] in segs;
      ResolveNames(stack + [segs[0]], segs[1..], rooted);
      assert stack + [segs[0]] + segs[1..] == stack + segs;
    }
  }

  /** Without a ".." segment, cleaning only drops empty and "." segments. */
  lemma {:induction false} ResolveDown(stack: seq<string>, segs: seq<string>)
    requires ".." !in segs
    ensures stack <= Resolve(stack, segs, true)
    decreases segs
  {
    if segs != [] {
      ResolveDown(Push(stack, segs[0], true), segs[1..]);
    }
  }

  lemma CleanRooted(p: string)
    requires Rooted(p)
    ensures Names(CleanSegs(p))
  {
    JoinSplit(p, '/');
    ResolveRooted([], Split(p, '/'));
  }

  lemma JoinedNotRooted(segs: seq<string>)
    requires |segs| > 0 && Names(segs)
    ensures Join(segs, '/') != "" && !Rooted(Join(segs, '/'))
  {
    assert segs[0] in segs;
    assert Join(segs, '/')[0] == segs[0][0];
  }

  lemma {:induction false} JoinedEnds(segs: seq<string>)
    requires |segs| > 0 && Names(segs)
    ensures Join(segs, '/') != "" && Join(segs, '/')[0] != '/' && Join(segs, '/')[|Join(segs, '/')| - 1] != '/'
  {
    assert segs[0] in segs;
    if |segs| > 1 {
      assert forall seg :: seg in segs[1..] ==> seg in segs;
      JoinedEnds(segs[1..]);
    }
  }

  lemma CleanJoined(segs: seq<string>)
    requires |segs| > 0 && Names(segs)
    ensures CleanSegs(Join(segs, '/')) == segs && Clean(Join(segs, '/')) == Join(segs, '/')
  {
    JoinedNotRooted(segs);
    SplitJoin(segs, '/');
    ResolveNames([], segs, false);
  }

  /** Joining a name onto a clean relative directory is plain concatenation of segments. */
  lemma PathJoinNames(a: seq<string>, b: seq<string>)
    requires |b| > 0 && Names(a) && Names(b)
    ensures PathJoin(Join(a, '/'), Join(b, '/')) == Join(a + b, '/')
  {
    if a == [] {
      JoinedNotRooted(b);
      CleanJoined(b);
      assert a + b == b;
    } else {
      JoinedNotRooted(a);
      JoinConcat(a, b, '/');
      CleanJoined(a + b);
    }
  }
}
