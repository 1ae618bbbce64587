/**
 * Keeping an untrusted relative path inside a destination directory
 * (internal/safepath/safepath.go; securePath in protocols/git/sparse.go is the same expression).
 */
module SafePath {
  import opened Strings
  import opened Paths

  datatype Joined = Inside(path: string) | Escapes

  /** Join and securePath: clean the joined path, then compare it with the root as strings. */
  function SafeJoin(root: string, rel: string): Joined {
    var joined := PathJoin(root, rel);
    var cleanRoot := Clean(root);
    if joined != cleanRoot && !(cleanRoot + "/" <= joined) then Escapes else Inside(joined)
  }

  /** Where rel leads from root, segment by segment: the meaning the string test stands for. */
  function Target(root: string, rel: string): seq<string> {
    Resolve(CleanSegs(root), Split(rel, '/'), true)
  }

  lemma JoinedSegs(root: string, rel: string)
    requires Rooted(root)
    ensures Names(CleanSegs(root)) && Names(Target(root, rel))
    ensures PathJoin(root, rel) == "/" + Join(Target(root, rel), '/')
  {
    JoinSplit(root, '/');
    JoinSplit(rel, '/');
    SplitConcat(root, rel, '/');
    assert root + "/" + rel == root + ['/'] + rel;
    ResolveConcat([], Split(root, '/'), Split(rel, '/'), true);
    CleanRooted(root);
    ResolveRooted(CleanSegs(root), Split(rel, '/'));
  }

  /**
   * Containment. For every absolute root other than "/" and every rel, the string test accepts
   * exactly the paths that end at or below root, and returns the cleaned path itself.
   */
  lemma JoinContains(root: string, rel: string)
    requires Rooted(root) && CleanSegs(root) != []
    ensures SafeJoin(root, rel).Inside? <==> CleanSegs(root) <= Target(root, rel)
    ensures SafeJoin(root, rel).Inside? ==> SafeJoin(root, rel).path == "/" + Join(Target(root, rel), '/')
  {
    JoinedSegs(root, rel);
    var r, t := CleanSegs(root), Target(root, rel);
    PrefixOfJoin(r, t, '/');
    PrefixBehind("/", Join(r, '/') + "/", Join(t, '/'));
    assert "/" + (Join(r, '/') + "/") == "/" + Join(r, '/') + "/";
    if "/" + Join(t, '/') == "/" + Join(r, '/') {
      assert Join(t, '/') == ("/" + Join(t, '/'))[1..] == ("/" + Join(r, '/'))[1..] == Join(r, '/');
      JoinedNotRooted(r);
      JoinInjective(r, t, '/');
    }
    if r == t {
    } else if r <= t {
      assert |r| < |t|;
    }
  }

  lemma PrefixBehind(front: string, a: string, b: string)
    ensures front + a <= front + b <==> a <= b
  {
    assert (front + a)[|front|..] == a && (front + b)[|front|..] == b;
    if front + a <= front + b {
      assert a == (front + b)[..|front + a|][|front|..] == b[..|a|];
    }
  }

  /** The root "/" is the exception: there the same test accepts nothing but "/" itself. */
  lemma JoinAtSlash(root: string, rel: string)
    requires Rooted(root) && CleanSegs(root) == []
    ensures SafeJoin(root, rel).Inside? <==> Target(root, rel) == []
  {
    JoinedSegs(root, rel);
    var t := Target(root, rel);
    if t != [] {
      JoinedNotRooted(t);
      assert PathJoin(root, rel)[1] == Join(t, '/')[0];
    }
  }

  /** So the test means containment for every rel exactly when the root is not "/". */
  lemma JoinExactIffNotSlash(root: string)
    requires Rooted(root)
    ensures (forall rel :: SafeJoin(root, rel).Inside? <==> CleanSegs(root) <= Target(root, rel))
       <==> Clean(root) != "/"
  {
    if CleanSegs(root) == [] {
      var rel := "a";
      JoinAtSlash(root, rel);
      SplitFree(rel, '/');
      ResolveNames([], [rel], true);
      assert CleanSegs(root) <= Target(root, rel) && SafeJoin(root, rel).Escapes?;
    } else {
      CleanRooted(root);
      JoinedNotRooted(CleanSegs(root));
      forall rel ensures SafeJoin(root, rel).Inside? <==> CleanSegs(root) <= Target(root, rel) {
        JoinContains(root, rel);
      }
    }
  }

  /** A clean relative path lands at root, a slash, and that path. */
  lemma JoinNames(root: string, segs: seq<string>)
    requires Rooted(root) && CleanSegs(root) != [] && |segs| > 0 && Names(segs)
    ensures SafeJoin(root, Join(segs, '/')) == Inside(Clean(root) + "/" + Join(segs, '/'))
  {
    var r := CleanSegs(root);
    SplitJoin(segs, '/');
    CleanRooted(root);
    ResolveNames(r, segs, true);
    var path := Join(segs, '/');
    assert Target(root, path) == r + segs;
    assert r <= r + segs;
    JoinContains(root, path);
    JoinConcat(r, segs, '/');
    BelowRoot(Join(r, '/'), path);
  }

  lemma BelowRoot(a: string, b: string)
    ensures "/" + (a + ['/'] + b) == ("/" + a) + "/" + b
  {
  }

  /** A path with no ".." segment never escapes. */
  lemma NoDotDotStays(root: string, rel: string)
    requires Rooted(root) && CleanSegs(root) != [] && ".." !in Split(rel, '/')
    ensures SafeJoin(root, rel).Inside?
  {
    ResolveDown(CleanSegs(root), Split(rel, '/'));
    JoinContains(root, rel);
  }

  // What ".." means.

  /** A name and the ".." behind it cancel out, wherever they stand. */
  lemma ParentCancels(root: string, a: seq<string>, name: string, b: seq<string>)
    requires Name(name) && Free(a, '/') && Free(b, '/') && a + b != []
    ensures Target(root, Join(a + [name, ".."] + b, '/')) == Target(root, Join(a + b, '/'))
  {
    var stack := CleanSegs(root);
    SplitJoin(a + [name, ".."] + b, '/');
    SplitJoin(a + b, '/');
    ResolveConcat(stack, a + [name, ".."], b, true);
    ResolveConcat(stack, a, [name, ".."], true);
    ResolveConcat(stack, a, b, true);
    var top := Resolve(stack, a, true);
    assert [name, ".."][1..] == [".."] && [".."][1..] == [];
    assert (top + [name])[..|top|] == top;
  }

  function Ups(n: nat): (r: seq<string>)
    ensures |r| == n && forall i :: 0 <= i < n ==> r[i] == ".."
  {
    seq(n, i => "..")
  }

  /** n levels up, and no higher than the top. */
  function Above(segs: seq<string>, n: nat): seq<string> {
    if |segs| < n then [] else segs[..|segs| - n]
  }

  /** Leading ".."s climb one directory each. */
  lemma UpsClimb(root: string, n: nat, names: seq<string>)
    requires Rooted(root) && Names(names) && n + |names| > 0
    ensures Target(root, Join(Ups(n) + names, '/')) == Above(CleanSegs(root), n) + names
  {
    var segs := CleanSegs(root);
    CleanRooted(root);
    UpsFree(n, names);
    ResolveUps(segs, n);
    AboveNames(segs, n);
    ThenDown(root, Ups(n), Above(segs, n), names);
  }

  lemma UpsFree(n: nat, names: seq<string>)
    requires Names(names)
    ensures Free(Ups(n) + names, '/')
  {
    forall x | x in Ups(n) + names ensures '/' !in x {
      assert x in Ups(n) || x in names;
    }
  }

  lemma AboveNames(segs: seq<string>, n: nat)
    requires Names(segs)
    ensures Names(Above(segs, n))
  {
    forall x | x in Above(segs, n) ensures Name(x) {
      assert x in segs;
    }
  }

  lemma ThenDown(root: string, ups: seq<string>, top: seq<string>, names: seq<string>)
    requires Free(ups + names, '/') && ups + names != [] && Names(top) && Names(names)
    requires Resolve(CleanSegs(root), ups, true) == top
    ensures Target(root, Join(ups + names, '/')) == top + names
  {
    SplitJoin(ups + names, '/');
    ResolveConcat(CleanSegs(root), ups, names, true);
    ResolveNames(top, names, true);
  }

  lemma {:induction false} ResolveUps(segs: seq<string>, n: nat)
    requires Names(segs)
    ensures Resolve(segs, Ups(n), true) == Above(segs, n)
    decreases n
  {
    if n > 0 {
      assert Ups(n)[1..] == Ups(n - 1);
      if segs != [] {
        assert segs[|segs| - 1] in segs;
        assert forall x :: x in segs[..|segs| - 1] ==> x in segs;
        ResolveUps(segs[..|segs| - 1], n - 1);
      } else {
        ResolveUps(segs, n - 1);
      }
    }
  }
}
