/**
 * Whatever an honest remote answers, a download by name that succeeds leaves the files of the first
 * spelling that exists; exactly when a submodule can pass for a missing reference it may not.
 */
module FirstSpelling {
  import opened Options
  import opened Strings
  import opened Paths
  import opened GitObjects
  import opened Cone
  import opened Checkout
  import opened Archive
  import opened Refs
  import opened Remotes
  import opened Engine
  import opened Verdicts
  import opened Fallback
  import opened RefResolution

  /** A subdirectory as it comes from a URL: none, or names joined by slashes. */
  ghost predicate SubdirOf(j: Job, segs: seq<string>) {
    if j.subdir == "" then segs == [] else |segs| > 0 && Names(segs) && j.subdir == Join(segs, '/')
  }

  // Files at another time.

  function Restamp(files: Files, stamp: nat): Files {
    map k | k in files :: files[k].(stamp := stamp)
  }

  lemma FilesRestamped(remote: Remote, tip: Hash, segs: seq<string>, s: nat, t: nat)
    requires tip in remote.store.commits
    ensures Restamp(FilesOf(remote, tip, s), t) == FilesOf(remote, tip, t)
    ensures Restamp(Restrict(FilesOf(remote, tip, s), segs), t) == Restrict(FilesOf(remote, tip, t), segs)
  {}

  // What a download leaves.

  /** The files of the tip, or those in the cone. */
  ghost predicate Leaves(remote: Remote, j: Job, segs: seq<string>, tip: Hash, files: Files, stamp: nat) {
    && tip in remote.store.commits
    && (|| files == FilesOf(remote, tip, stamp)
        || (j.subdir != "" && files == Restrict(FilesOf(remote, tip, stamp), segs)))
  }

  /** Those of the first spelling that exists. */
  ghost predicate LandsFirst(remote: Remote, j: Job, segs: seq<string>, files: Files, stamp: nat) {
    exists i: nat ::
      && FirstAt(remote, CloneAttempts(j.ref), i)
      && Leaves(remote, j, segs, Target(remote, CloneAttempts(j.ref)[i]).value, files, stamp)
  }

  lemma LandsRestamped(remote: Remote, j: Job, segs: seq<string>, tip: Hash, s: nat, t: nat)
    requires tip in remote.store.commits && LandsFirst(remote, j, segs, FilesOf(remote, tip, s), s)
    ensures LandsFirst(remote, j, segs, FilesOf(remote, tip, t), t)
  {
    var i: nat :|
      && FirstAt(remote, CloneAttempts(j.ref), i)
      && Leaves(remote, j, segs, Target(remote, CloneAttempts(j.ref)[i]).value, FilesOf(remote, tip, s), s);
    var first := Target(remote, CloneAttempts(j.ref)[i]).value;
    FilesRestamped(remote, tip, segs, s, t);
    FilesRestamped(remote, first, segs, s, t);
    assert Leaves(remote, j, segs, first, FilesOf(remote, tip, t), t);
  }

  // Where a clone that succeeds ends.

  /** At an existing spelling, every earlier one having been answered as missing. */
  ghost predicate EndsBy(remote: Remote, attempts: seq<Attempt>, recurse: bool, k: nat, tip: Hash) {
    && k < |attempts| && Target(remote, attempts[k]) == Some(tip)
    && forall m :: 0 <= m < k ==> MayMiss(remote, attempts[m], recurse)
  }

  lemma {:induction false} CloneEnds(
    net: Network, ctx: Context, st: State, req: CloneReq, attempts: seq<Attempt>, bare: bool, last: Err)
    returns (k: nat)
    requires Honest(net, ctx) && TryAttempts(net, st, req, attempts, bare, last).result.Repo?
    ensures var c := TryAttempts(net, st, req, attempts, bare, last);
            var store := c.result.store;
            && store.head.Some? && EndsBy(net.remote, attempts, req.recurse, k, store.head.value)
            && PartOf(store, net.remote.store) && store.head.value in store.commits
            && (!req.filtered ==> Whole(store, store.head.value))
            && c.st.files == (if bare then map[] else Worktree(store, c.stamp))
    decreases attempts
  {
    var r := req.(attempt := attempts[0]);
    var reply := net.clone(st.clock, r);
    assert HonestClone(net.remote, ctx, st.clock, r, reply);
    if reply.Cloned? {
      k := 0;
    } else {
      var after := State(st.clock + 1, Left(reply.left, st.clock));
      var n := CloneEnds(net, ctx, after, req, attempts[1..], bare, ErrOf(reply.failure));
      k := n + 1;
      assert MayMiss(net.remote, attempts[0], req.recurse);
      assert forall m :: 0 < m < k ==> attempts[m] == attempts[1..][m - 1];
    }
  }

  /** Without submodules that is the first that exists. */
  lemma EndsFirst(remote: Remote, attempts: seq<Attempt>, k: nat, tip: Hash)
    requires EndsBy(remote, attempts, false, k, tip)
    ensures FirstAt(remote, attempts, k)
  {
    forall m | 0 <= m < k ensures Target(remote, attempts[m]).None? {
      assert MayMiss(remote, attempts[m], false);
    }
  }

  lemma {:induction false} TreeAtIsDir(trees: set<Hash>, root: Tree, segs: seq<string>)
    requires segs != [] && TreeAt(trees, root, segs).Some?
    ensures IsDirPath(root.entries, segs)
    decreases segs
  {
    if |segs| > 1 {
      TreeAtIsDir(trees, Find(root.entries, segs[0]).value.tree, segs[1..]);
    } else {
      assert segs[1..] == [];
    }
  }

  lemma {:induction false} AboveIsDir(es: seq<Entry>, segs: seq<string>, rest: seq<string>)
    requires segs != [] && rest != [] && ItemAt(es, segs + rest).Some?
    ensures IsDirPath(es, segs)
    decreases segs
  {
    assert (segs + rest)[1..] == segs[1..] + rest;
    if |segs| > 1 {
      AboveIsDir(Find(es, segs[0]).value.tree.entries, segs[1..], rest);
    } else {
      assert segs[1..] + rest == rest;
    }
  }

  /** A directory with files below it is one of the tree's. */
  lemma DirectoryIsDir(es: seq<Entry>, blobs: map<Hash, Bytes>, segs: seq<string>, stamp: nat)
    requires |segs| > 0 && Names(segs) && IsDirectory(TreeFiles(es, blobs, stamp), Join(segs, '/'))
    ensures IsDirPath(es, segs)
  {
    var k :| k in TreeFiles(es, blobs, stamp) && Join(segs, '/') + "/" <= k;
    var path := Split(k, '/');
    assert Join(segs, '/') + "/" == Join(segs, '/') + ['/'];
    SplitOfPrefix(Join(segs, '/'), k, '/');
    SplitJoin(segs, '/');
    assert path == segs + path[|segs|..];
    AboveIsDir(es, segs, path[|segs|..]);
  }

  lemma SparseSuccess(net: Network, st: State, j: Job, auth: Auth, segs: seq<string>) returns (k: nat)
    requires Honest(net, j.ctx) && Named(net.remote, j) && SubdirOf(j, segs) && j.subdir != "" && st.files == map[]
    requires SparseDownload(net, st, j, auth).err.None?
    ensures FirstAt(net.remote, CloneAttempts(j.ref), k)
    ensures var s, tip := SparseDownload(net, st, j, auth), Target(net.remote, CloneAttempts(j.ref)[k]).value;
            && Leaves(net.remote, j, segs, tip, s.st.files, s.stamp)
            && IsDirPath(net.remote.store.commits[tip].tree.entries, segs)
  {
    var attempts := CloneAttempts(j.ref);
    k := CloneEnds(net, j.ctx, State(st.clock, map[]), SparseReq(j, auth), attempts, true, {});
    var c := SparseClone(net, st.clock, j, auth);
    var tip := c.store.head.value;
    EndsFirst(net.remote, attempts, k, tip);
    assert SparseCommit(net, c.clock, c.store, j, auth) == Located(c.clock, c.store, tip, None);
    var sel := Select(c.store.commits, c.store.trees, tip, j.subdir).value;
    var tree := c.store.commits[tip].tree;
    SelectRows(c.store.trees, tree, segs);
    TreeAtIsDir(c.store.trees, tree, segs);
    SparseWritten(net, State(c.clock, st.files), j, c.store, tip, segs, sel, auth, st.clock);
  }

  lemma FullSuccess(net: Network, st: State, j: Job, auth: Auth) returns (k: nat, tip: Hash)
    requires Honest(net, j.ctx) && Named(net.remote, j) && FullClone(net, st, j, auth).err.None?
    ensures EndsBy(net.remote, CloneAttempts(j.ref), j.recurse, k, tip) && tip in net.remote.store.commits
    ensures var s := FullClone(net, st, j, auth);
            && s.st.files == FilesOf(net.remote, tip, s.stamp)
            && (j.subdir != "" ==> IsDirectory(s.st.files, j.subdir))
  {
    k := CloneEnds(net, j.ctx, st, FullReq(j, auth), CloneAttempts(j.ref), false, {});
    var c := CloneByAttempts(net, st, FullReq(j, auth), CloneAttempts(j.ref), false);
    tip := c.result.store.head.value;
    SameFiles(c.result.store.commits[tip].tree.entries, c.result.store.blobs, net.remote.store.blobs, c.stamp);
  }

  /** With the subdirectory absent from the tip, the download fails. */
  lemma AbsentSubdirFails(net: Network, st: State, j: Job, auth: Auth, i: nat, segs: seq<string>)
    requires Honest(net, j.ctx) && AnswersNames(net, auth) && Named(net.remote, j) && st.files == map[]
    requires SubdirOf(j, segs) && j.subdir != "" && FirstAt(net.remote, CloneAttempts(j.ref), i)
    requires var tip := Target(net.remote, CloneAttempts(j.ref)[i]).value;
             tip in net.remote.store.commits ==> !IsDirPath(net.remote.store.commits[tip].tree.entries, segs)
    ensures CloneAndPrepare(net, st, j, auth).err.Some?
  {
    var s := SparseDownload(net, st, j, auth);
    if s.err.None? {
      var k := SparseSuccess(net, st, j, auth, segs);
    } else {
      FullAbsentFails(net, State(s.st.clock, map[]), j, auth, i, segs);
    }
  }

  lemma FullAbsentFails(net: Network, st: State, j: Job, auth: Auth, i: nat, segs: seq<string>)
    requires Honest(net, j.ctx) && AnswersNames(net, auth) && Named(net.remote, j)
    requires SubdirOf(j, segs) && j.subdir != "" && FirstAt(net.remote, CloneAttempts(j.ref), i)
    requires var tip := Target(net.remote, CloneAttempts(j.ref)[i]).value;
             tip in net.remote.store.commits ==> !IsDirPath(net.remote.store.commits[tip].tree.entries, segs)
    ensures FullClone(net, st, j, auth).err.Some?
  {
    if FullClone(net, st, j, auth).err.None? {
      NamedAttempts(j.ref);
      FirstExisting(net, j.ctx, st, FullReq(j, auth), CloneAttempts(j.ref), false, {}, i);
      var c := CloneByAttempts(net, st, FullReq(j, auth), CloneAttempts(j.ref), false);
      var tip := c.result.store.head.value;
      DirectoryIsDir(c.result.store.commits[tip].tree.entries, c.result.store.blobs, segs, c.stamp);
    }
  }

  // Whose files a success leaves.

  /**
   * A full clone can end at the spelling at k, past every existing one before it, and leave files
   * that are not the first one's.
   */
  ghost predicate Slips(remote: Remote, j: Job, segs: seq<string>, k: nat) {
    && k < |CloneAttempts(j.ref)| && Target(remote, CloneAttempts(j.ref)[k]).Some?
    && var tip := Target(remote, CloneAttempts(j.ref)[k]).value;
       && EndsBy(remote, CloneAttempts(j.ref), j.recurse, k, tip) && tip in remote.store.commits
       && (j.subdir != "" ==> IsDirectory(FilesOf(remote, tip, 0), j.subdir))
       && !LandsFirst(remote, j, segs, FilesOf(remote, tip, 0), 0)
  }

  /**
   * That takes submodules to be initialised, a submodule at the first existing spelling, and a
   * later one that exists.
   */
  lemma SlipsBySubmodule(remote: Remote, j: Job, segs: seq<string>, k: nat) returns (i: nat)
    requires Slips(remote, j, segs, k)
    ensures j.recurse && i < k && FirstAt(remote, CloneAttempts(j.ref), i)
    ensures ListsSubmodule(remote, Target(remote, CloneAttempts(j.ref)[i]).value)
  {
    FirstLands(remote, j, segs, k);
    i := FirstUpTo(remote, CloneAttempts(j.ref), k);
    assert i < k ==> MayMiss(remote, CloneAttempts(j.ref)[i], j.recurse);
  }

  lemma FirstUpTo(remote: Remote, attempts: seq<Attempt>, k: nat) returns (i: nat)
    requires k < |attempts| && Target(remote, attempts[k]).Some?
    ensures i <= k && FirstAt(remote, attempts, i)
  {
    i := 0;
    while Target(remote, attempts[i]).None?
      invariant i <= k && forall m :: 0 <= m < i ==> Target(remote, attempts[m]).None?
      decreases k - i
    {
      i := i + 1;
    }
  }

  lemma FirstLands(remote: Remote, j: Job, segs: seq<string>, k: nat)
    ensures FirstAt(remote, CloneAttempts(j.ref), k) ==>
              var tip := Target(remote, CloneAttempts(j.ref)[k]).value;
              tip in remote.store.commits ==> LandsFirst(remote, j, segs, FilesOf(remote, tip, 0), 0)
  {
    if FirstAt(remote, CloneAttempts(j.ref), k) {
      var tip := Target(remote, CloneAttempts(j.ref)[k]).value;
      assert tip in remote.store.commits ==> Leaves(remote, j, segs, tip, FilesOf(remote, tip, 0), 0);
    }
  }

  lemma FullSlipsOrLands(net: Network, st: State, j: Job, auth: Auth, segs: seq<string>)
    requires Honest(net, j.ctx) && Named(net.remote, j) && FullClone(net, st, j, auth).err.None?
    ensures var s := FullClone(net, st, j, auth);
            LandsFirst(net.remote, j, segs, s.st.files, s.stamp) || exists k: nat :: Slips(net.remote, j, segs, k)
  {
    var k, tip := FullSuccess(net, st, j, auth);
    var s := FullClone(net, st, j, auth);
    FilesRestamped(net.remote, tip, segs, s.stamp, 0);
    assert FilesOf(net.remote, tip, 0).Keys == s.st.files.Keys;
    if LandsFirst(net.remote, j, segs, FilesOf(net.remote, tip, 0), 0) {
      LandsRestamped(net.remote, j, segs, tip, 0, s.stamp);
    } else {
      assert Slips(net.remote, j, segs, k);
    }
  }

  lemma SuccessSlipsOrLands(net: Network, st: State, j: Job, auth: Auth, segs: seq<string>)
    requires Honest(net, j.ctx) && Named(net.remote, j) && SubdirOf(j, segs) && st.files == map[]
    requires CloneAndPrepare(net, st, j, auth).err.None?
    ensures var s := CloneAndPrepare(net, st, j, auth);
            LandsFirst(net.remote, j, segs, s.st.files, s.stamp) || exists k: nat :: Slips(net.remote, j, segs, k)
  {
    if j.subdir == "" {
      FullSlipsOrLands(net, st, j, auth, segs);
    } else {
      var s := SparseDownload(net, st, j, auth);
      if s.err.None? {
        var k := SparseSuccess(net, st, j, auth, segs);
      } else {
        FullSlipsOrLands(net, State(s.st.clock, map[]), j, auth, segs);
      }
    }
  }

  // A network that slips.

  /** It clones at one spelling alone, in full; elsewhere it reports "reference not found" wherever honesty allows. */
  ghost predicate Slippery(net: Network, at: Attempt) {
    && (forall n: nat, req: CloneReq :: net.clone(n, req) == SlipperyClone(net.remote, at, req))
    && (forall n: nat, req: FetchReq :: net.fetch(n, req) == FetchFailed(None))
  }

  ghost function SlipperyClone(remote: Remote, at: Attempt, req: CloneReq): CloneReply {
    if req.attempt == at && !req.filtered && req.auth in remote.accepted && Held(remote, at) then
      var tip := Target(remote, at).value;
      Cloned(remote.store.(commits := map[tip := remote.store.commits[tip]], head := Some(tip)))
    else CloneFailed(if MayMiss(remote, req.attempt, req.recurse) then Some(RefNotFound) else None, map[])
  }

  ghost predicate Held(remote: Remote, at: Attempt) {
    Target(remote, at).Some? && Target(remote, at).value in remote.store.commits
  }

  lemma SlipperyNetwork(remote: Remote, ctx: Context, at: Attempt) returns (net: Network)
    requires at.single && forall h :: h in remote.store.commits ==> Whole(remote.store, h)
    ensures net.remote == remote && Slippery(net, at) && Honest(net, ctx)
  {
    net := Network(remote, (n: nat, req: CloneReq) => SlipperyClone(remote, at, req),
                   (n: nat, req: FetchReq) => FetchFailed(None), (n: nat, h: Hash) => None);
    forall n: nat, req: CloneReq ensures HonestClone(remote, ctx, n, req, net.clone(n, req)) {
      if net.clone(n, req).Cloned? {
        TipWithin(remote, req.depth, Target(remote, at).value);
        assert Whole(remote.store, Target(remote, at).value);
      }
    }
  }

  lemma AttemptsDistinct(ref: string)
    requires !LooksLikeCommitHash(ref)
    ensures forall m, k :: 0 <= m < k < |CloneAttempts(ref)| ==> CloneAttempts(ref)[m] != CloneAttempts(ref)[k]
    ensures forall k :: 0 <= k < |CloneAttempts(ref)| ==> CloneAttempts(ref)[k].single
  {
    assert |HEADS + ref| > |TAGS + ref| > |"refs/" + ref|;
  }

  lemma {:induction false} SlipperyRun(
    net: Network, st: State, req: CloneReq, attempts: seq<Attempt>, k: nat, last: Err, tip: Hash)
    requires EndsBy(net.remote, attempts, req.recurse, k, tip) && tip in net.remote.store.commits
    requires Slippery(net, attempts[k]) && !req.filtered && req.auth in net.remote.accepted
    requires forall m :: 0 <= m < k ==> attempts[m] != attempts[k]
    ensures var c := TryAttempts(net, st, req, attempts, false, last);
            && c.result.Repo? && c.st.files == FilesOf(net.remote, tip, c.stamp)
    decreases k
  {
    if k > 0 {
      assert MayMiss(net.remote, attempts[0], req.recurse);
      assert forall m :: 0 <= m < k ==> attempts[1..][m] == attempts[m + 1];
      var after := State(st.clock + 1, Left(map[], st.clock));
      assert net.clone(st.clock, req.(attempt := attempts[0])) == CloneFailed(Some(RefNotFound), map[]);
      SlipperyRun(net, after, req, attempts[1..], k - 1, {RefNotFound}, tip);
    }
  }

  lemma SlipperyFull(net: Network, st: State, j: Job, auth: Auth, segs: seq<string>, k: nat)
    requires Named(net.remote, j) && Slips(net.remote, j, segs, k) && Slippery(net, CloneAttempts(j.ref)[k])
    requires auth in net.remote.accepted
    ensures var s := FullClone(net, st, j, auth);
            s.err.None? && !LandsFirst(net.remote, j, segs, s.st.files, s.stamp)
  {
    var tip := Target(net.remote, CloneAttempts(j.ref)[k]).value;
    AttemptsDistinct(j.ref);
    SlipperyRun(net, st, FullReq(j, auth), CloneAttempts(j.ref), k, {}, tip);
    var c := CloneByAttempts(net, st, FullReq(j, auth), CloneAttempts(j.ref), false);
    FilesRestamped(net.remote, tip, segs, 0, c.stamp);
    assert FilesOf(net.remote, tip, 0).Keys == c.st.files.Keys;
    if LandsFirst(net.remote, j, segs, c.st.files, c.stamp) {
      LandsRestamped(net.remote, j, segs, tip, c.stamp, 0);
    }
  }

  lemma SlipperySparse(net: Network, st: State, j: Job, auth: Auth, k: nat)
    requires Named(net.remote, j) && k < |CloneAttempts(j.ref)| && Slippery(net, CloneAttempts(j.ref)[k])
    requires Target(net.remote, CloneAttempts(j.ref)[k]).Some?
    ensures SparseDownload(net, st, j, auth).err == Some({SparseUnsupported})
  {
    RefusedAttempts(net, State(st.clock, map[]), SparseReq(j, auth), CloneAttempts(j.ref), true, {});
    assert !MayMiss(net.remote, CloneAttempts(j.ref)[k], false) && CloneAttempts(j.ref)[k] in CloneAttempts(j.ref);
    assert {} + {SparseUnsupported} == {SparseUnsupported};
  }

  /** Whatever an honest network over this remote answers, a success lands at the first spelling. */
  ghost predicate AlwaysFirst(remote: Remote, j: Job, segs: seq<string>) {
    forall net: Network, st: State, auth: Auth :: net.remote == remote && Honest(net, j.ctx) && st.files == map[] ==>
      var s := CloneAndPrepare(net, st, j, auth);
      s.err.None? ==> LandsFirst(remote, j, segs, s.st.files, s.stamp)
  }

  /**
   * A download by name that succeeds always leaves the files of the first spelling that exists, or
   * those in the cone, exactly when a clone cannot slip to a later one. It can where submodules are to
   * be initialised, the first spelling lists one, and a later spelling has other files.
   */
  lemma FirstSpellingExact(remote: Remote, j: Job, segs: seq<string>, auth: Auth)
    requires Named(remote, j) && SubdirOf(j, segs) && auth in remote.accepted
    ensures AlwaysFirst(remote, j, segs) <==> !exists k: nat :: Slips(remote, j, segs, k)
    ensures !j.recurse ==> AlwaysFirst(remote, j, segs)
  {
    if k: nat :| Slips(remote, j, segs, k) {
      var i := SlipsBySubmodule(remote, j, segs, k);
      SlipsSometimes(remote, j, segs, auth, k);
    } else {
      forall net: Network, st: State, a: Auth |
        net.remote == remote && Honest(net, j.ctx) && st.files == map[] && CloneAndPrepare(net, st, j, a).err.None?
        ensures var s := CloneAndPrepare(net, st, j, a); LandsFirst(remote, j, segs, s.st.files, s.stamp)
      {
        SuccessSlipsOrLands(net, st, j, a, segs);
      }
    }
  }

  lemma SlipsSometimes(remote: Remote, j: Job, segs: seq<string>, auth: Auth, k: nat)
    requires Named(remote, j) && Slips(remote, j, segs, k) && auth in remote.accepted
    ensures !AlwaysFirst(remote, j, segs)
  {
    AttemptsDistinct(j.ref);
    var net := SlipperyNetwork(remote, j.ctx, CloneAttempts(j.ref)[k]);
    SlipperyDownload(net, State(0, map[]), j, auth, segs, k);
    assert net.remote == remote;
  }

  lemma SlipperyDownload(net: Network, st: State, j: Job, auth: Auth, segs: seq<string>, k: nat)
    requires Named(net.remote, j) && Slips(net.remote, j, segs, k) && Slippery(net, CloneAttempts(j.ref)[k])
    requires auth in net.remote.accepted
    ensures var s := CloneAndPrepare(net, st, j, auth);
            s.err.None? && !LandsFirst(net.remote, j, segs, s.st.files, s.stamp)
  {
    SlipperySparse(net, st, j, auth, k);
    SlipperyFull(net, st, j, auth, segs, k);
    SlipperyFull(net, State(SparseDownload(net, st, j, auth).st.clock, map[]), j, auth, segs, k);
  }

  // One remote where it happens.

  const BRANCH_TREE := Tree("t1", [Entry("m", Submodule("c9"))])
  const TAG_TREE := Tree("t2", [Entry("f", File(Regular, "b"))])

  /** A branch x that lists a submodule, and a tag x that has one file instead. */
  const FORKED := Remote(
    map["refs/heads/x" := "c1", "refs/tags/x" := "c2"], Some("c1"),
    Store(map["c1" := Commit([], BRANCH_TREE), "c2" := Commit([], TAG_TREE)], {"t1", "t2"}, map["b" := []], Some("c1")),
    false, {Anonymous})

  lemma ForkedTrees()
    ensures Listing(BRANCH_TREE.entries) == [Row(["m"], Submodule("c9"))]
    ensures Listing(TAG_TREE.entries) == [Row(["f"], File(Regular, "b"))]
    ensures Wf(BRANCH_TREE.entries) && Wf(TAG_TREE.entries)
    ensures TreesPresent({"t1", "t2"}, BRANCH_TREE.entries) && TreesPresent({"t1", "t2"}, TAG_TREE.entries)
  {
    assert BRANCH_TREE.entries[1..] == [] && TAG_TREE.entries[1..] == [];
  }

  lemma ForkedTips(j: Job)
    requires j.ref == "x"
    ensures CloneAttempts(j.ref) == [Attempt("refs/heads/x", true), Attempt("refs/tags/x", true)]
    ensures FirstAt(FORKED, CloneAttempts(j.ref), 0) && Target(FORKED, CloneAttempts(j.ref)[0]) == Some("c1")
    ensures Target(FORKED, CloneAttempts(j.ref)[1]) == Some("c2")
  {
    assert HEADS + "x" == "refs/heads/x" && TAGS + "x" == "refs/tags/x";
  }

  lemma ForkedFiles()
    ensures "f" in FilesOf(FORKED, "c2", 0) && "f" !in FilesOf(FORKED, "c1", 0)
  {
    ForkedTrees();
    SplitFree("f", '/');
    var r := Row(["f"], File(Regular, "b"));
    assert r in Listing(TAG_TREE.entries) && Join(r.path, '/') == "f";
    RowKey(TAG_TREE.entries, r);
    assert forall q :: q in Listing(BRANCH_TREE.entries) ==> !q.item.File?;
  }

  lemma ForkedNamed(j: Job)
    requires j.ref == "x" && Rooted(j.root) && CleanSegs(j.root) != []
    ensures Named(FORKED, j) && ListsSubmodule(FORKED, "c1")
  {
    ForkedTrees();
    assert Row(["m"], Submodule("c9")) in Listing(BRANCH_TREE.entries);
  }

  /** Asked for x with submodules, it can leave the tag's file in place of the branch. */
  lemma BranchBecomesTag(j: Job)
    requires j.ref == "x" && j.subdir == "" && j.recurse && Rooted(j.root) && CleanSegs(j.root) != []
    ensures !AlwaysFirst(FORKED, j, [])
  {
    ForkedNamed(j);
    ForkedTips(j);
    ForkedFiles();
    assert MayMiss(FORKED, CloneAttempts(j.ref)[0], true);
    assert EndsBy(FORKED, CloneAttempts(j.ref), true, 1, "c2");
    assert forall i: nat :: FirstAt(FORKED, CloneAttempts(j.ref), i) ==> i == 0;
    assert !Leaves(FORKED, j, [], "c1", FilesOf(FORKED, "c2", 0), 0);
    assert Slips(FORKED, j, [], 1);
    SlipsSometimes(FORKED, j, [], Anonymous, 1);
  }
}
