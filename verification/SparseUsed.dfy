/** When a subdirectory is downloaded alone: against a server that serves partial clones, whenever it may be. */
module SparseUsed {
  import opened Options
  import opened Strings
  import opened Paths
  import opened GitObjects
  import opened Cone
  import opened Checkout
  import opened Archive
  import opened Refs
  import opened Remotes
  import opened Engine
  import opened Fallback
  import opened RefResolution
  import opened FirstSpelling
  import opened ShortHash

  /**
   * A server that serves partial clones and objects by hash to that credential: what is there comes
   * with whole trees, and the blobs asked for come too.
   */
  ghost predicate Obliging(net: Network, auth: Auth) {
    && (forall n: nat, req: CloneReq :: req.auth == auth && req.filtered ==>
          ObligingClone(net.remote, req, net.clone(n, req)))
    && (forall n: nat, req: FetchReq ::
          req.auth == auth && req.wants <= net.remote.store.commits.Keys + net.remote.store.blobs.Keys ==>
            ObligingFetch(net.remote, req, net.fetch(n, req)))
  }

  ghost predicate ObligingClone(remote: Remote, req: CloneReq, reply: CloneReply) {
    match Target(remote, req.attempt)
    case None => reply.CloneFailed? && MissingRef(req.attempt, ErrOf(reply.failure))
    case Some(h) => reply.Cloned? && WholeTrees(remote, reply.store.trees) && HasTree(reply.store, h)
  }

  ghost predicate HasTree(store: Store, h: Hash) {
    h in store.commits && store.commits[h].tree.hash in store.trees
  }

  ghost predicate ObligingFetch(remote: Remote, req: FetchReq, reply: FetchReply) {
    && reply.Fetched? && WholeTrees(remote, reply.got.trees)
    && (req.filter == BlobNone ==> forall h :: h in req.wants && h in remote.store.commits ==> HasTree(reply.got, h))
    && (req.filter == NoFilter ==> forall b :: b in req.wants && b in remote.store.blobs ==> b in reply.got.blobs)
  }

  /** The commit that is asked for: a name's first spelling, a full hash, or what a short one is taken for. */
  ghost predicate AskedFor(remote: Remote, j: Job, h: Hash) {
    if !LooksLikeCommitHash(j.ref) then
      exists i: nat :: FirstAt(remote, CloneAttempts(j.ref), i)
        && Target(remote, CloneAttempts(j.ref)[i]) == Some(h)
    else if |j.ref| == 40 then h == ToLower(j.ref) && h in remote.store.commits && remote.head.Some?
    else SparseTakes(remote, j, h)
  }

  /** Initialising submodules takes a worktree, and one of them lies in the cone. */
  ghost predicate NeedsWorktree(j: Job, es: seq<Entry>, segs: seq<string>) {
    j.recurse && exists path :: InCone(path, segs) && IsSubmodule(es, path)
  }

  // The commit is found.

  lemma {:induction false} AnchoredAt(
    net: Network, ctx: Context, st: State, req: CloneReq, attempts: seq<Attempt>, last: Err, i: nat)
    requires Honest(net, ctx) && Obliging(net, req.auth) && req.filtered && FirstAt(net.remote, attempts, i)
    ensures var c, h := TryAttempts(net, st, req, attempts, true, last), Target(net.remote, attempts[i]).value;
            && c.result.Repo? && c.result.store.head == Some(h)
            && Anchored(net.remote, c.result.store) && HasTree(c.result.store, h)
    decreases i
  {
    var r := req.(attempt := attempts[0]);
    var reply := net.clone(st.clock, r);
    assert ObligingClone(net.remote, r, reply);
    assert HonestClone(net.remote, ctx, st.clock, r, reply);
    if i > 0 {
      var rest := attempts[1..];
      assert forall k :: 0 <= k < |rest| ==> rest[k] == attempts[k + 1];
      assert FirstAt(net.remote, rest, i - 1);
      AnchoredAt(net, ctx, State(st.clock + 1, Left(reply.left, st.clock)), req, rest, ErrOf(reply.failure),
        i - 1);
    }
  }

  /** What the stage has found once it knows the commit. */
  ghost predicate Found(remote: Remote, l: Located, h: Hash) {
    l.err.None? && l.commit == h && Anchored(remote, l.store) && HasTree(l.store, h)
  }

  lemma NameFound(net: Network, clock: nat, j: Job, auth: Auth, h: Hash)
    requires Honest(net, j.ctx) && Obliging(net, auth) && !LooksLikeCommitHash(j.ref) && AskedFor(net.remote, j, h)
    ensures var c := SparseClone(net, clock, j, auth);
            c.err.None? && Found(net.remote, SparseCommit(net, c.clock, c.store, j, auth), h)
  {
    var i: nat :| FirstAt(net.remote, CloneAttempts(j.ref), i)
                  && Target(net.remote, CloneAttempts(j.ref)[i]) == Some(h);
    AnchoredAt(net, j.ctx, State(clock, map[]), SparseReq(j, auth), CloneAttempts(j.ref), {}, i);
  }

  lemma TreesEnsured(net: Network, ctx: Context, clock: nat, store: Store, h: Hash, auth: Auth)
    requires Honest(net, ctx) && Obliging(net, auth) && Anchored(net.remote, store) && h in net.remote.store.commits
    ensures var f := EnsureCommitTrees(net, clock, store, h, auth);
            f.err.None? && Anchored(net.remote, f.store) && HasTree(f.store, h)
  {
    var req := FetchReq({h}, BlobNone, 1, auth);
    var reply := net.fetch(clock, req);
    assert ObligingFetch(net.remote, req, reply) && HonestFetch(net.remote, ctx, clock, req, reply);
    if !HasTree(store, h) {
      assert h in req.wants;
      AnchoredMerge(net.remote, store, reply.got);
    }
  }

  lemma HashAnchored(net: Network, clock: nat, j: Job, auth: Auth)
    requires Honest(net, j.ctx) && Obliging(net, auth) && LooksLikeCommitHash(j.ref) && net.remote.head.Some?
    ensures var c := SparseClone(net, clock, j, auth);
            c.err.None? && c.store.head == net.remote.head && Anchored(net.remote, c.store)
  {
    var attempts := [Attempt("", true)];
    assert FirstAt(net.remote, attempts, 0);
    AnchoredAt(net, j.ctx, State(clock, map[]), SparseReq(j, auth), attempts, {}, 0);
  }

  lemma FullHashFound(net: Network, clock: nat, j: Job, auth: Auth, h: Hash)
    requires Honest(net, j.ctx) && Obliging(net, auth) && PinnedEligible(j) && AskedFor(net.remote, j, h)
    ensures var c := SparseClone(net, clock, j, auth);
            c.err.None? && Found(net.remote, SparseCommit(net, c.clock, c.store, j, auth), h)
  {
    HashAnchored(net, clock, j, auth);
    var c := SparseClone(net, clock, j, auth);
    assert forall g :: StandsFor(c.store.commits, j.ref, g) ==> g == h;
    TreesEnsured(net, j.ctx, c.clock, c.store, h, auth);
  }

  lemma ShortHashFound(net: Network, clock: nat, j: Job, auth: Auth, h: Hash)
    requires Honest(net, j.ctx) && Obliging(net, auth) && Short(j) && AskedFor(net.remote, j, h)
    requires net.remote.head.value in net.remote.store.commits
    ensures var c := SparseClone(net, clock, j, auth);
            c.err.None? && Found(net.remote, SparseCommit(net, c.clock, c.store, j, auth), h)
  {
    HashAnchored(net, clock, j, auth);
    AnchorIsHead(net, clock, j, auth);
    var c := SparseClone(net, clock, j, auth);
    if net.remote.head == Some(h) {
      assert Matching(c.store.commits, j.ref) == {h};
      assert StandsFor(c.store.commits, j.ref, h);
      TreesEnsured(net, j.ctx, c.clock, c.store, h, auth);
    } else {
      GraphFound(net, c.clock, c.store, j, auth, h);
    }
  }

  lemma GraphFound(net: Network, clock: nat, store: Store, j: Job, auth: Auth, h: Hash)
    requires Honest(net, j.ctx) && Obliging(net, auth) && Short(j) && AskedFor(net.remote, j, h)
    requires Anchored(net.remote, store) && store.head == net.remote.head != Some(h)
    requires store.commits.Keys == {store.head.value}
    ensures Found(net.remote, SparseCommit(net, clock, store, j, auth), h)
  {
    NotTheAnchor(net.remote, store, j, h);
    GraphFetched(net, clock, store, j, auth, h);
    var graph := FetchObjects(net, clock, store, FetchReq({store.head.value}, TreeNone, 0, auth));
    TreesEnsured(net, j.ctx, graph.clock, graph.store, h, auth);
  }

  lemma NotTheAnchor(remote: Remote, store: Store, j: Job, h: Hash)
    requires Short(j) && SparseTakes(remote, j, h) && store.head == remote.head != Some(h)
    requires PartOf(store, remote.store) && store.commits.Keys == {store.head.value}
    ensures ResolveHash(store.commits, j.ref).None?
  {
    HeadMatches(remote, j);
    assert Matching(store.commits, j.ref) == {};
    assert forall g :: !StandsFor(store.commits, j.ref, g);
  }

  lemma GraphFetched(net: Network, clock: nat, store: Store, j: Job, auth: Auth, h: Hash)
    requires Honest(net, j.ctx) && Obliging(net, auth) && Short(j) && AskedFor(net.remote, j, h)
    requires Anchored(net.remote, store) && store.head == net.remote.head != Some(h)
    requires store.commits.Keys == {store.head.value}
    ensures var graph := FetchObjects(net, clock, store, FetchReq({store.head.value}, TreeNone, 0, auth));
            graph.err.None? && Anchored(net.remote, graph.store) && ResolveHash(graph.store.commits, j.ref) == Some(h)
  {
    var head := store.head.value;
    var req := FetchReq({head}, TreeNone, 0, auth);
    var reply := net.fetch(clock, req);
    assert head in store.commits;
    assert ObligingFetch(net.remote, req, reply) && HonestFetch(net.remote, j.ctx, clock, req, reply);
    AnchoredMerge(net.remote, store, reply.got);
    GraphIsHistory(net, clock, store, j, auth, head);
    OnlyInHistory(net.remote, j, h, FetchObjects(net, clock, store, req).store.commits);
  }

  lemma OnlyInHistory(remote: Remote, j: Job, h: Hash, graph: map<Hash, Commit>)
    requires Short(j) && SparseTakes(remote, j, h) && remote.head != Some(h)
    requires HistoryOf(remote, remote.head.value, graph)
    ensures ResolveHash(graph, j.ref) == Some(h)
  {
    assert Matching(graph, j.ref) == MatchesOfHead(remote, j);
    assert StandsFor(graph, j.ref, h);
  }

  lemma CommitFound(net: Network, clock: nat, j: Job, auth: Auth, h: Hash)
    requires Honest(net, j.ctx) && Obliging(net, auth) && AskedFor(net.remote, j, h)
    requires LooksLikeCommitHash(j.ref) ==> net.remote.head.Some? ==> net.remote.head.value in net.remote.store.commits
    ensures var c := SparseClone(net, clock, j, auth);
            c.err.None? && Found(net.remote, SparseCommit(net, c.clock, c.store, j, auth), h)
  {
    if !LooksLikeCommitHash(j.ref) {
      NameFound(net, clock, j, auth, h);
    } else if |j.ref| == 40 {
      FullHashFound(net, clock, j, auth, h);
    } else {
      ShortHashFound(net, clock, j, auth, h);
    }
  }

  // The cone is written.

  lemma ObligedBlobs(net: Network, ctx: Context, clock: nat, store: Store, files: seq<SparseEntry>, auth: Auth)
    requires Honest(net, ctx) && Obliging(net, auth) && PartOf(store, net.remote.store)
    requires BlobsOf(files) <= net.remote.store.blobs.Keys
    ensures var f := FetchBlobs(net, clock, store, files, auth);
            f.err.None? && PartOf(f.store, net.remote.store) && BlobsOf(files) <= f.store.blobs.Keys
  {
    var req := FetchReq(BlobsOf(files) - store.blobs.Keys, NoFilter, 0, auth);
    var reply := net.fetch(clock, req);
    var f := FetchBlobs(net, clock, store, files, auth);
    if req.wants == {} {
      assert f == Fetching(clock, store, None);
    } else {
      assert ObligingFetch(net.remote, req, reply) && HonestFetch(net.remote, ctx, clock, req, reply);
      assert f == Fetching(clock + 1, Merge(store, reply.got), None);
    }
    forall b | b in BlobsOf(files) ensures b in f.store.blobs {
      assert b in store.blobs || b in req.wants;
    }
  }

  lemma SelectedBlobs(trees: set<Hash>, tree: Tree, segs: seq<string>, blobs: map<Hash, Bytes>)
    requires |segs| > 0 && Names(segs) && Wf(tree.entries) && ReadableIn(trees, tree, segs)
    requires BlobsPresent(blobs, tree.entries)
    ensures SelectIn(trees, tree, Join(segs, '/')).Some?
    ensures BlobsOf(SelectIn(trees, tree, Join(segs, '/')).value.files) <= blobs.Keys
  {
    SelectIsCone(trees, tree, segs);
    var files := SelectIn(trees, tree, Join(segs, '/')).value.files;
    forall b | b in BlobsOf(files) ensures b in blobs {
      var f :| f in files && f.blob == b;
      assert SparseEntry(f.path, f.mode, f.blob) in files;
      FileRow(tree.entries, f.path);
    }
  }

  /** From a store that holds the commit's trees on. */
  lemma ConeOfFound(net: Network, st: State, j: Job, store: Store, h: Hash, segs: seq<string>, auth: Auth, stamp: nat)
    requires Honest(net, j.ctx) && Obliging(net, auth) && Downloadable(net.remote, j, segs) && st.files == map[]
    requires Anchored(net.remote, store) && HasTree(store, h) && j.subdir != ""
    requires IsDirPath(net.remote.store.commits[h].tree.entries, segs)
    ensures var tree := net.remote.store.commits[h].tree;
            var sel := Select(store.commits, store.trees, h, j.subdir);
            && sel.Some?
            && (sel.value.submodules != [] <==> exists path :: InCone(path, segs) && IsSubmodule(tree.entries, path))
            && var s := SparseWrite(net, st, j, store, sel.value.files, auth, stamp);
               && s.err.None? && s.stamp == stamp
               && s.st.files == Restrict(TreeFiles(tree.entries, net.remote.store.blobs, stamp), segs)
  {
    var tree, all := net.remote.store.commits[h].tree, net.remote.store.blobs;
    TreeAtDir(store.trees, tree, segs, ItemAt(tree.entries, segs).value.tree);
    SelectRows(store.trees, tree, segs);
    var sel := SelectIn(store.trees, tree, j.subdir).value;
    SubmodulesNoted(store.trees, tree, segs);
    SelectedBlobs(store.trees, tree, segs, all);
    ObligedBlobs(net, j.ctx, st.clock, store, sel.files, auth);
    var f := FetchBlobs(net, st.clock, store, sel.files, auth);
    SparseRefinesCheckout(j.root, Store(map[], store.trees, f.store.blobs, None), tree, segs, sel, all, stamp);
  }

  lemma SubmodulesNoted(trees: set<Hash>, tree: Tree, segs: seq<string>)
    requires |segs| > 0 && Names(segs) && Wf(tree.entries) && ReadableIn(trees, tree, segs)
    ensures SelectIn(trees, tree, Join(segs, '/')).Some?
    ensures SelectIn(trees, tree, Join(segs, '/')).value.submodules != [] <==>
            exists path :: InCone(path, segs) && IsSubmodule(tree.entries, path)
  {
    SelectIsCone(trees, tree, segs);
    var noted := SelectIn(trees, tree, Join(segs, '/')).value.submodules;
    if noted != [] {
      SubmodulesInCone(trees, tree, segs, noted[0]);
      assert noted[0] in noted;
    }
    if path :| InCone(path, segs) && IsSubmodule(tree.entries, path) {
      ItemNames(tree.entries, path);
      SplitJoin(path, '/');
      SubmodulesInCone(trees, tree, segs, Join(path, '/'));
    }
  }

  /**
   * A subdirectory that can be had alone is. Against a server that serves partial clones, whatever the
   * reference is, a name, a full hash or a short one: the sparse stage leaves exactly the cone's files
   * of the commit asked for, unless submodules are to be initialised and one lies in the cone; then,
   * and only then, it makes way for a clone with a worktree.
   */
  lemma SubdirectoryAlone(net: Network, st: State, j: Job, auth: Auth, h: Hash, segs: seq<string>)
    requires Honest(net, j.ctx) && Obliging(net, auth) && Downloadable(net.remote, j, segs) && st.files == map[]
    requires AskedFor(net.remote, j, h) && h in net.remote.store.commits
    requires LooksLikeCommitHash(j.ref) ==> net.remote.head.value in net.remote.store.commits
    requires j.subdir != "" && IsDirPath(net.remote.store.commits[h].tree.entries, segs)
    ensures var es, s := net.remote.store.commits[h].tree.entries, CloneAndPrepare(net, st, j, auth);
            if NeedsWorktree(j, es, segs) then
              exists later: nat :: s == WithoutSparse(net, State(later, map[]), j, auth)
            else s.err.None? && s.st.files == Restrict(TreeFiles(es, net.remote.store.blobs, s.stamp), segs)
  {
    CommitFound(net, st.clock, j, auth, h);
    var c := SparseClone(net, st.clock, j, auth);
    var l := SparseCommit(net, c.clock, c.store, j, auth);
    ConeOfFound(net, State(l.clock, st.files), j, l.store, h, segs, auth, st.clock);
    var s := SparseDownload(net, st, j, auth);
    assert CloneAndPrepare(net, st, j, auth) ==
      if s.err.Some? && SparseUnsupported in s.err.value then WithoutSparse(net, State(s.st.clock, map[]), j, auth)
      else s;
  }

  /**
   * A subdirectory that is no directory of the commit ends the download there and then: there is
   * nothing to fall back for.
   */
  lemma AbsentEndsAtOnce(net: Network, st: State, j: Job, auth: Auth, h: Hash, segs: seq<string>)
    requires Honest(net, j.ctx) && Obliging(net, auth) && Downloadable(net.remote, j, segs)
    requires AskedFor(net.remote, j, h) && h in net.remote.store.commits
    requires LooksLikeCommitHash(j.ref) ==> net.remote.head.value in net.remote.store.commits
    requires j.subdir != "" && !IsDirPath(net.remote.store.commits[h].tree.entries, segs)
    ensures var s := CloneAndPrepare(net, st, j, auth); s.err == Some({ObjectNotFound}) && s.st.files == st.files
  {
    CommitFound(net, st.clock, j, auth, h);
    var c := SparseClone(net, st.clock, j, auth);
    var l := SparseCommit(net, c.clock, c.store, j, auth);
    NothingSelected(l.store, net.remote.store.commits[h].tree, h, segs);
    AbsentInStore(net, st, j, auth, h);
  }

  lemma AbsentInStore(net: Network, st: State, j: Job, auth: Auth, h: Hash)
    requires j.subdir != "" && SparseClone(net, st.clock, j, auth).err.None?
    requires var c := SparseClone(net, st.clock, j, auth);
             var l := SparseCommit(net, c.clock, c.store, j, auth);
             l.err.None? && l.commit == h && Select(l.store.commits, l.store.trees, h, j.subdir).None?
    ensures var s := CloneAndPrepare(net, st, j, auth); s.err == Some({ObjectNotFound}) && s.st.files == st.files
  {}

  lemma NothingSelected(store: Store, tree: Tree, h: Hash, segs: seq<string>)
    requires h in store.commits && store.commits[h].tree == tree && |segs| > 0 && Names(segs) && Wf(tree.entries)
    requires !IsDirPath(tree.entries, segs)
    ensures Select(store.commits, store.trees, h, Join(segs, '/')).None?
  {
    SelectRows(store.trees, tree, segs);
    if TreeAt(store.trees, tree, segs).Some? {
      TreeAtIsDir(store.trees, tree, segs);
    }
  }

  /** Below the root "/" the stage can write nothing, and that ends the download too: no file, no marker. */
  lemma NothingWrittenAtSlash(
    net: Network, st: State, j: Job, store: Store, files: seq<SparseEntry>, auth: Auth, stamp: nat)
    requires Rooted(j.root) && CleanSegs(j.root) == [] && files != []
    requires Names(Split(files[0].path, '/')) && files[0].path != ""
    requires FetchBlobs(net, st.clock, store, files, auth).err.None?
    ensures var s := SparseWrite(net, st, j, store, files, auth, stamp);
            s.err == Some({}) && s.st.files == st.files
  {
    EscapesAtSlash(j.root, files[0].path);
    var blobs := FetchBlobs(net, st.clock, store, files, auth).store.blobs;
    assert files[..1] == [files[0]] && files[..1][..0] == [];
    assert WriteAll(st.files, j.root, blobs, files[..1], stamp) == Writing(st.files, Escaped);
    WriteAllStops(st.files, j.root, blobs, files, stamp, 1);
  }

  // Such a server is possible, and honest.

  ghost function EverythingAsked(remote: Remote, req: CloneReq, tip: Hash): Store {
    remote.store.(commits := map h | h in remote.store.commits && Asked(remote, req, h) :: remote.store.commits[h],
      head := Some(tip))
  }

  ghost function GenerousClone(remote: Remote, req: CloneReq): CloneReply {
    match Target(remote, req.attempt)
    case None => CloneFailed(Some(RefNotFound), map[])
    case Some(tip) =>
      if req.auth in remote.accepted then Cloned(EverythingAsked(remote, req, tip)) else CloneFailed(None, map[])
  }

  ghost function GenerousFetch(remote: Remote, req: FetchReq): FetchReply {
    if req.auth in remote.accepted then
      Fetched(remote.store.(
        commits := map h | h in remote.store.commits && Wanted(remote, req.wants, h) :: remote.store.commits[h]))
    else FetchFailed(None)
  }

  lemma GenerousIsObliging(remote: Remote, ctx: Context, auth: Auth) returns (net: Network)
    requires Sane(remote) && auth in remote.accepted
    ensures net.remote == remote && Honest(net, ctx) && Obliging(net, auth)
  {
    net := Network(remote, (n: nat, req: CloneReq) => GenerousClone(remote, req),
                   (n: nat, req: FetchReq) => GenerousFetch(remote, req), (n: nat, h: Hash) => None);
    forall n, req ensures HonestClone(remote, ctx, n, req, net.clone(n, req)) {
      GenerousCloneIs(remote, ctx, n, req);
    }
    forall n: nat, req: CloneReq | req.auth == auth ensures ObligingClone(remote, req, net.clone(n, req)) {
      GenerousCloneIs(remote, ctx, n, req);
    }
    forall n: nat, req: FetchReq
      ensures HonestFetch(remote, ctx, n, req, net.fetch(n, req))
      ensures req.auth == auth ==> ObligingFetch(remote, req, net.fetch(n, req))
    {
      GenerousFetchIs(remote, ctx, n, req);
    }
  }

  lemma GenerousCloneIs(remote: Remote, ctx: Context, n: nat, req: CloneReq)
    requires Sane(remote)
    ensures HonestClone(remote, ctx, n, req, GenerousClone(remote, req))
    ensures req.auth in remote.accepted ==> ObligingClone(remote, req, GenerousClone(remote, req))
  {
    if req.auth in remote.accepted && Target(remote, req.attempt).Some? {
      var tip := Target(remote, req.attempt).value;
      TipWithin(remote, req.depth, tip);
      assert Advertised(remote, tip) && Whole(remote.store, tip);
      var store := EverythingAsked(remote, req, tip);
      assert Whole(store, tip);
      forall h | InDepth(remote, req.depth, h) && Everything(req) ensures Whole(store, h) {
        DepthOnBranch(remote, req.depth, h);
        assert Whole(remote.store, h);
      }
    }
  }

  lemma GenerousFetchIs(remote: Remote, ctx: Context, n: nat, req: FetchReq)
    requires Sane(remote)
    ensures HonestFetch(remote, ctx, n, req, GenerousFetch(remote, req))
    ensures req.auth in remote.accepted ==> ObligingFetch(remote, req, GenerousFetch(remote, req))
  {
    forall h | h in req.wants && h in remote.store.commits ensures Wanted(remote, req.wants, h)
      && HasTree(remote.store, h) {
      TipWithin(remote, 0, h);
      assert Whole(remote.store, h);
    }
  }
}
