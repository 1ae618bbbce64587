/** Which local paths may be copied from: resolving and comparing them (protocols/file/file.go). */
module LocalFiles {
  import opened Options
  import opened Strings
  import opened Paths

  /** An absolute, cleaned path. */
  predicate Canonical(p: string) {
    Rooted(p) && Clean(p) == p
  }

  /** filepath.Abs and filepath.EvalSymlinks, as they stand while a path is checked. */
  datatype FileSystem = FileSystem(abs: string -> Option<string>, eval: string -> Option<string>)
  {
    /** Both return absolute, cleaned paths. */
    ghost predicate Valid() {
      && (forall p :: abs(p).Some? ==> Canonical(abs(p).value))
      && (forall p :: Canonical(p) && eval(p).Some? ==> Canonical(eval(p).value))
    }

    /** Links lead somewhere fixed: what a path resolves to resolves to itself, and so does what is below. */
    ghost predicate Coherent() {
      forall p, q, rest :: Names(p) && Names(q) && Names(rest) ==> Follows(p, q, rest)
    }

    predicate Follows(p: seq<string>, q: seq<string>, rest: seq<string>) {
      eval(AbsPath(p)) == Some(AbsPath(q)) ==>
        eval(AbsPath(q)) == Some(AbsPath(q)) && eval(AbsPath(p + rest)) == eval(AbsPath(q + rest))
    }
  }

  lemma CanonicalNames(p: string)
    requires Canonical(p)
    ensures Names(CleanSegs(p)) && p == AbsPath(CleanSegs(p))
  {
    CleanRooted(p);
  }

  lemma AbsPathIsCanonical(names: seq<string>)
    requires Names(names)
    ensures Canonical(AbsPath(names)) && CleanSegs(AbsPath(names)) == names
  {
    assert AbsPath(names)[1..] == Join(names, '/');
    assert Split(AbsPath(names), '/') == [""] + Split(Join(names, '/'), '/');
    var segs := Split(Join(names, '/'), '/');
    assert ([""] + segs)[1..] == segs;
    if names != [] {
      SplitJoin(names, '/');
      ResolveNames([], names, true);
      assert [] + names == names;
    } else {
      assert AbsPath(names) == "/" && segs == [""] && segs[1..] == [];
      assert Resolve([], [""] + segs, true) == Resolve([], segs, true) == [];
    }
  }

  /** The element of a cleaned, absolute path behind its last slash (filepath.Base). */
  function Base(p: string): string {
    var parts := Split(p, '/');
    if parts[|parts| - 1] == "" then "/" else parts[|parts| - 1]
  }

  lemma SplitAbsPath(names: seq<string>)
    requires Names(names)
    ensures Split(AbsPath(names), '/') == [""] + if names == [] then [""] else names
  {
    assert AbsPath(names)[1..] == Join(names, '/');
    if names != [] {
      SplitJoin(names, '/');
    }
  }

  lemma CleanBehindSlash(up: seq<string>)
    requires Names(up)
    ensures Clean(Join([""] + up, '/') + "/") == AbsPath(up)
  {
    var dir := Join([""] + up, '/') + "/";
    var front := [""] + up;
    JoinConcat(front, [""], '/');
    assert dir == Join(front + [""], '/');
    SplitJoin(front + [""], '/');
    assert dir[0] == '/' by { if up != [] { assert front[1..] == up; } }
    assert (front + [""])[1..] == up + [""];
    ResolveConcat([], up, [""], true);
    ResolveNames([], up, true);
    assert [] + up == up && [""][1..] == [];
  }

  lemma AbsPathUp(names: seq<string>)
    requires |names| > 0 && Names(names)
    ensures PathDir(AbsPath(names)) == AbsPath(names[..|names| - 1]) && Base(AbsPath(names)) == names[|names| - 1]
  {
    var n := |names| - 1;
    SplitAbsPath(names);
    var parts := [""] + names;
    assert names[n] in names && parts[|parts| - 1] == names[n];
    assert parts[..|parts| - 1] == [""] + names[..n];
    assert forall x :: x in names[..n] ==> x in names;
    CleanBehindSlash(names[..n]);
  }

  // Resolving.

  /** What resolving the first n names, or failing that fewer of them, gives. */
  function ResolvedNames(fs: FileSystem, names: seq<string>, n: nat): seq<string>
    requires n <= |names|
  {
    var found := fs.eval(AbsPath(names[..n]));
    if found.Some? then CleanSegs(found.value) + names[n..]
    else if n == 0 then names
    else ResolvedNames(fs, names, n - 1)
  }

  function Resolved(fs: FileSystem, abs: string): seq<string> {
    ResolvedNames(fs, CleanSegs(abs), |CleanSegs(abs)|)
  }

  /** resolvePath once the path is absolute: the walk up to the first ancestor that resolves. */
  method ResolvePath(fs: FileSystem, abs: string) returns (r: string)
    requires fs.Valid() && Canonical(abs)
    ensures r == AbsPath(Resolved(fs, abs))
  {
    CanonicalNames(abs);
    ghost var names := CleanSegs(abs);
    ghost var n := |names|;
    assert names[..n] == names && names[n..] == [];
    var resolved := fs.eval(abs);
    if resolved.Some? {
      CanonicalNames(resolved.value);
      assert CleanSegs(resolved.value) + [] == CleanSegs(resolved.value);
      return resolved.value;
    }
    var dir, rest := abs, [];
    while true
      invariant 0 <= n <= |names| && dir == AbsPath(names[..n]) && rest == names[n..]
      invariant fs.eval(dir).None? && ResolvedNames(fs, names, n) == Resolved(fs, abs)
      decreases n
    {
      StepUp(fs, names, n);
      var parent := PathDir(dir);
      if parent == dir {
        return abs;
      }
      rest := [Base(dir)] + rest;
      n := n - 1;
      resolved := fs.eval(parent);
      if resolved.Some? {
        return Clean(Join([resolved.value] + rest, '/'));
      }
      dir := parent;
    }
  }

  /** One round of the walk, from the first n names, which do not resolve. */
  lemma StepUp(fs: FileSystem, names: seq<string>, n: nat)
    requires fs.Valid() && Names(names) && n <= |names| && fs.eval(AbsPath(names[..n])).None?
    ensures PathDir(AbsPath(names[..n])) == AbsPath(names[..n]) <==> n == 0
    ensures n == 0 ==> ResolvedNames(fs, names, n) == names
    ensures n > 0 ==> PathDir(AbsPath(names[..n])) == AbsPath(names[..n - 1])
    ensures n > 0 ==> [Base(AbsPath(names[..n]))] + names[n..] == names[n - 1..]
    ensures n > 0 ==> ResolvedNames(fs, names, n) == ResolvedNames(fs, names, n - 1)
    ensures n > 0 && fs.eval(AbsPath(names[..n - 1])).Some? ==>
              Clean(Join([fs.eval(AbsPath(names[..n - 1])).value] + names[n - 1..], '/'))
                == AbsPath(ResolvedNames(fs, names, n - 1))
  {
    Above(names, n);
    if n > 0 && fs.eval(AbsPath(names[..n - 1])).Some? {
      Rejoined(fs.eval(AbsPath(names[..n - 1])).value, names, n - 1);
    }
  }

  lemma RootIsItsParent()
    ensures AbsPath([]) == "/" && PathDir("/") == "/"
  {
    assert Split("/", '/') == ["", ""] by { assert "/"[1..] == "" && Split("", '/') == [""]; }
    var parts := ["", ""];
    assert parts[..1] == [""] && Join([""], '/') == "";
    assert "" + "/" == "/";
    AbsPathIsCanonical([]);
  }

  /** One step up from the first n names; the root is its own parent. */
  lemma Above(names: seq<string>, n: nat)
    requires Names(names) && n <= |names|
    ensures PathDir(AbsPath(names[..n])) == AbsPath(names[..n]) <==> n == 0
    ensures n > 0 ==> PathDir(AbsPath(names[..n])) == AbsPath(names[..n - 1])
    ensures n > 0 ==> Base(AbsPath(names[..n])) == names[n - 1]
    ensures n > 0 ==> [names[n - 1]] + names[n..] == names[n - 1..]
    ensures n > 0 ==> Canonical(AbsPath(names[..n - 1]))
  {
    assert forall x :: x in names[..n] ==> x in names;
    AbsPathIsCanonical(names[..n]);
    if n == 0 {
      assert names[..0] == [];
      RootIsItsParent();
    } else {
      AbsPathUp(names[..n]);
      assert names[..n][..n - 1] == names[..n - 1];
      AbsPathIsCanonical(names[..n - 1]);
    }
  }

  lemma Rejoined(found: string, names: seq<string>, n: nat)
    requires Canonical(found) && Names(names) && n < |names|
    ensures Clean(Join([found] + names[n..], '/')) == AbsPath(CleanSegs(found) + names[n..])
  {
    var rest := names[n..];
    assert forall x :: x in rest ==> x in names;
    JoinConcat([found], rest, '/');
    var joined := found + "/" + Join(rest, '/');
    assert Join([found] + rest, '/') == joined && joined == found + ['/'] + Join(rest, '/');
    SplitConcat(found, Join(rest, '/'), '/');
    SplitJoin(rest, '/');
    ResolveConcat([], Split(found, '/'), rest, true);
    CleanRooted(found);
    ResolveNames(CleanSegs(found), rest, true);
  }

  /** The walk stops at the deepest ancestor that resolves and leaves the names below it as they are. */
  lemma {:induction false} DeepestAncestor(fs: FileSystem, names: seq<string>, n: nat, i: nat)
    requires i <= n <= |names| && fs.eval(AbsPath(names[..i])).Some?
    requires forall j :: i < j <= n ==> fs.eval(AbsPath(names[..j])).None?
    ensures ResolvedNames(fs, names, n) == CleanSegs(fs.eval(AbsPath(names[..i])).value) + names[i..]
  {
    if i < n {
      DeepestAncestor(fs, names, n - 1, i);
    }
  }

  /** With no ancestor that resolves, the path stands for itself. */
  lemma {:induction false} NoAncestor(fs: FileSystem, names: seq<string>, n: nat)
    requires n <= |names| && forall j :: 0 <= j <= n ==> fs.eval(AbsPath(names[..j])).None?
    ensures ResolvedNames(fs, names, n) == names
  {
    if n > 0 {
      NoAncestor(fs, names, n - 1);
    }
  }

  lemma {:induction false} Deepest(fs: FileSystem, names: seq<string>, n: nat) returns (i: int)
    requires n <= |names|
    ensures -1 <= i <= n && (i >= 0 ==> fs.eval(AbsPath(names[..i])).Some?)
    ensures forall j :: i < j <= n ==> fs.eval(AbsPath(names[..j])).None?
  {
    if fs.eval(AbsPath(names[..n])).Some? {
      i := n;
    } else if n == 0 {
      i := -1;
    } else {
      i := Deepest(fs, names, n - 1);
    }
  }

  lemma FixedBelow(fs: FileSystem, up: seq<string>, found: seq<string>, rest: seq<string>)
    requires fs.Coherent() && Names(up) && Names(found) && Names(rest) && fs.eval(AbsPath(up)) == Some(AbsPath(found))
    requires forall k :: 0 < k <= |rest| ==> fs.eval(AbsPath(up + rest[..k])).None?
    ensures var r := found + rest; ResolvedNames(fs, r, |r|) == r
  {
    var r := found + rest;
    assert r[..|found|] == found && r[|found|..] == rest;
    assert fs.Follows(up, found, []);
    forall j | |found| < j <= |r| ensures fs.eval(AbsPath(r[..j])).None? {
      var k := j - |found|;
      assert Names(rest[..k]) && r[..j] == found + rest[..k];
      assert fs.Follows(up, found, rest[..k]);
    }
    AbsPathIsCanonical(found);
    DeepestAncestor(fs, r, |r|, |found|);
  }

  /** Resolving a resolved path changes nothing, also where its last names do not exist. */
  lemma ResolvedIsFixed(fs: FileSystem, names: seq<string>)
    requires fs.Valid() && fs.Coherent() && Names(names)
    ensures var r := ResolvedNames(fs, names, |names|);
            Names(r) && ResolvedNames(fs, r, |r|) == r
  {
    var i := Deepest(fs, names, |names|);
    if i < 0 {
      NoAncestor(fs, names, |names|);
    } else {
      DeepestAncestor(fs, names, |names|, i);
      var up, rest := names[..i], names[i..];
      assert forall x :: x in up ==> x in names;
      assert forall x :: x in rest ==> x in names;
      AbsPathIsCanonical(up);
      var found := CleanSegs(fs.eval(AbsPath(up)).value);
      CanonicalNames(fs.eval(AbsPath(up)).value);
      forall k | 0 < k <= |rest| ensures fs.eval(AbsPath(up + rest[..k])).None? {
        assert names[..i + k] == up + rest[..k];
      }
      FixedBelow(fs, up, found, rest);
    }
  }

  // Comparing.

  /** The string test of checkAllowed on two resolved paths. */
  predicate Within(resolved: string, root: string) {
    resolved == root || root + "/" <= resolved
  }

  /** The test means containment except below "/", where it accepts only "/" itself. */
  lemma WithinIsContainment(names: seq<string>, root: seq<string>)
    requires Names(names) && Names(root)
    ensures (Within(AbsPath(names), AbsPath(root)) <==> root <= names) <==> root != [] || names == []
  {
    AbsPathIsCanonical(names);
    AbsPathIsCanonical(root);
    if names != [] { JoinedNotRooted(names); }
    if root != [] {
      PrefixOfJoin(root, names, '/');
      var r, t := Join(root, '/') + "/", Join(names, '/');
      assert AbsPath(root) + "/" == "/" + r;
      assert ("/" + r)[1..] == r && AbsPath(names)[1..] == t;
      if "/" + r <= AbsPath(names) { assert r == AbsPath(names)[1..][..|r|]; }
      if root <= names && |root| == |names| { assert root == names; }
    } else {
      assert AbsPath([]) == "/";
    }
  }

  /** checkAllowed: an empty list restricts nothing. */
  method CheckAllowed(fs: FileSystem, path: string, allowed: seq<string>) returns (ok: bool)
    requires fs.Valid()
    ensures ok <==>
            || allowed == []
            || (fs.abs(path).Some? && exists dir :: dir in allowed && Covers(fs, dir, fs.abs(path).value))
  {
    if allowed == [] {
      return true;
    }
    var abs := fs.abs(path);
    if abs.None? {
      return false;
    }
    var resolved := ResolvePath(fs, abs.value);
    for i := 0 to |allowed|
      invariant forall k :: 0 <= k < i ==> !Covers(fs, allowed[k], abs.value)
    {
      var dir := fs.abs(allowed[i]);
      if dir.Some? {
        var root := ResolvePath(fs, dir.value);
        if Within(resolved, root) {
          assert allowed[i] in allowed && Covers(fs, allowed[i], abs.value);
          return true;
        }
      }
    }
    return false;
  }

  predicate Covers(fs: FileSystem, dir: string, abs: string) {
    fs.abs(dir).Some? && Within(AbsPath(Resolved(fs, abs)), AbsPath(Resolved(fs, fs.abs(dir).value)))
  }

  lemma {:induction false} ResolvedIsNames(fs: FileSystem, names: seq<string>, n: nat)
    requires fs.Valid() && Names(names) && n <= |names|
    ensures Names(ResolvedNames(fs, names, n))
  {
    assert forall x :: x in names[..n] ==> x in names;
    AbsPathIsCanonical(names[..n]);
    var found := fs.eval(AbsPath(names[..n]));
    if found.Some? {
      CanonicalNames(found.value);
      assert forall x :: x in names[n..] ==> x in names;
    } else if n > 0 {
      ResolvedIsNames(fs, names, n - 1);
    }
  }

  /**
   * An allowed directory covers what lies in it or is it, once both have been resolved: its names begin
   * the path's. The root covers itself alone, and a directory without an absolute path nothing.
   */
  lemma CoversByNames(fs: FileSystem, dir: string, abs: string)
    requires fs.Valid() && Canonical(abs)
    ensures fs.abs(dir).None? ==> !Covers(fs, dir, abs)
    ensures fs.abs(dir).Some? ==>
              var root, path := Resolved(fs, fs.abs(dir).value), Resolved(fs, abs);
              Covers(fs, dir, abs) <==> root <= path && (root == [] ==> path == [])
  {
    if fs.abs(dir).Some? {
      var d := fs.abs(dir).value;
      CanonicalNames(abs);
      CanonicalNames(d);
      ResolvedIsNames(fs, CleanSegs(abs), |CleanSegs(abs)|);
      ResolvedIsNames(fs, CleanSegs(d), |CleanSegs(d)|);
      WithinIsContainment(Resolved(fs, abs), Resolved(fs, d));
    }
  }
}
