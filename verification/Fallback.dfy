/**
 * Fetching a pinned commit loses nothing that a clone or the server's own advertisement offers,
 * however a server refuses or truncates what it is asked for by hash; and just that can be relied on.
 */
module Fallback {
  import opened Options
  import opened Strings
  import opened Paths
  import opened GitObjects
  import opened Cone
  import opened Checkout
  import opened Archive
  import opened Refs
  import opened Remotes
  import opened Engine
  import opened CredentialWalk

  /** An unfiltered clone of something that is there succeeds. Nothing is asked of fetches by hash. */
  ghost predicate ClonesReliably(net: Network, auth: Auth) {
    forall n: nat, req: CloneReq ::
      req.auth == auth && !req.filtered && !req.recurse && Target(net.remote, req.attempt).Some? ==>
      net.clone(n, req).Cloned?
  }

  /** No tree without its subtrees. */
  ghost predicate WholeTrees(remote: Remote, trees: set<Hash>) {
    forall h :: h in remote.store.commits && remote.store.commits[h].tree.hash in trees ==>
      TreesPresent(trees, remote.store.commits[h].tree.entries)
  }

  /** What a server serves by hash: what it advertises and, unless it is restricted, all that this leads to. */
  ghost predicate Grants(remote: Remote, h: Hash) {
    if remote.restricted then Advertised(remote, h) else LedTo(remote, h)
  }

  /**
   * What the sparse path, which has no completeness check on trees, relies on: replies carry whole
   * trees, and a commit asked for by hash is served, or refused by a server that does not grant it,
   * whatever it says. A restricted one may refuse any. Blobs may be missing.
   */
  ghost predicate ServesTrees(net: Network, auth: Auth) {
    && (forall n: nat, req: CloneReq :: net.clone(n, req).Cloned? ==>
          WholeTrees(net.remote, net.clone(n, req).store.trees))
    && (forall n: nat, req: FetchReq ::
          req.auth == auth && req.filter == BlobNone && req.wants <= net.remote.store.commits.Keys ==>
            ServedTrees(net.remote, req.wants, net.fetch(n, req)))
  }

  ghost predicate ServedTrees(remote: Remote, wants: set<Hash>, reply: FetchReply) {
    match reply
    case Fetched(got) =>
      && WholeTrees(remote, got.trees)
      && forall h :: h in wants && h in remote.store.commits ==>
           h in got.commits && remote.store.commits[h].tree.hash in got.trees
    case HandshakeFailed(_) => false
    case FetchFailed(_) => remote.restricted || exists w :: w in wants && !Grants(remote, w)
  }

  /**
   * What the full clone, which asks for HEAD, is sure to bring: HEAD, and what lies within its depth of
   * the tip of a branch or tag.
   */
  ghost predicate Cloneable(remote: Remote, j: Job) {
    remote.head.Some? && (remote.head == Some(ToLower(j.ref)) || InDepth(remote, ResolveDepth(j), ToLower(j.ref)))
  }

  /** A full hash of a commit of the remote. */
  ghost predicate Pinned(remote: Remote, j: Job) {
    && PinnedEligible(j) && Whole(remote.store, ToLower(j.ref))
    && (forall n :: !j.ctx(n))
    && Rooted(j.root) && CleanSegs(j.root) != []
  }

  /** The submodules of the commit, if they are wanted, can be had. */
  ghost predicate SubmodulesInitialise(net: Network, j: Job) {
    j.recurse ==> forall n: nat :: net.submodules(n, ToLower(j.ref)).None?
  }

  /** What is granted is served whole to whoever asks for it alone, with its blobs. */
  ghost predicate ServesByHash(net: Network, auth: Auth) {
    forall n: nat, req: FetchReq :: req.auth == auth && req.filter == NoFilter ==>
      ServedWhole(net.remote, req, net.fetch(n, req))
  }

  ghost predicate ServedWhole(remote: Remote, req: FetchReq, reply: FetchReply) {
    forall h :: Grants(remote, h) && req.wants == {h} ==> reply.Fetched? && Whole(reply.got, h)
  }

  ghost function PinnedTree(remote: Remote, j: Job): Tree
    requires Pinned(remote, j)
  {
    remote.store.commits[ToLower(j.ref)].tree
  }

  ghost predicate ModernFiles(es: seq<Entry>) {
    forall r :: r in Listing(es) && r.item.File? ==> r.item.mode != Legacy
  }

  /** No subdirectory, or one of the tree's directories, with a file somewhere below it. */
  ghost predicate GoodSubdir(es: seq<Entry>, subdir: string, segs: seq<string>) {
    if subdir == "" then segs == []
    else
      && |segs| > 0 && Names(segs) && subdir == Join(segs, '/') && IsDirPath(es, segs)
      && exists k :: k in FileKeys(es) && subdir + "/" <= k
  }

  // Checking out what a repository holds of the remote's commit.

  lemma DirectoryThere(es: seq<Entry>, blobs: map<Hash, Bytes>, subdir: string, segs: seq<string>, stamp: nat)
    requires Wf(es) && BlobsPresent(blobs, es) && subdir != "" && GoodSubdir(es, subdir, segs)
    ensures IsDirectory(TreeFiles(es, blobs, stamp), subdir)
  {
    var files := TreeFiles(es, blobs, stamp);
    var k :| k in FileKeys(es) && subdir + "/" <= k;
    FileKeysExact(es, k);
    FileRow(es, k);
    assert k in files;
    SplitJoin(segs, '/');
    assert subdir !in files;
  }

  lemma PinnedChecksOut(
    net: Network, st: State, j: Job, store: Store, tracked: set<string>, stamp: nat, segs: seq<string>)
    requires Pinned(net.remote, j) && PartOf(store, net.remote.store)
    requires Wf(PinnedTree(net.remote, j).entries) && GoodSubdir(PinnedTree(net.remote, j).entries, j.subdir, segs)
    requires Whole(store, ToLower(j.ref)) && st.files.Keys <= tracked && SubmodulesInitialise(net, j)
    ensures var s := Prepared(net, st, j, store, tracked, stamp);
            && s.err.None? && s.stamp == stamp
            && s.st.files == TreeFiles(PinnedTree(net.remote, j).entries, net.remote.store.blobs, stamp)
  {
    var tree := PinnedTree(net.remote, j);
    SameFiles(tree.entries, store.blobs, net.remote.store.blobs, stamp);
    WholeChecksOut(net, st, j, store, tracked, stamp, tree, segs);
  }

  lemma WholeChecksOut(
    net: Network, st: State, j: Job, store: Store, tracked: set<string>, stamp: nat, tree: Tree, segs: seq<string>)
    requires PinnedEligible(j) && Whole(store, ToLower(j.ref)) && store.commits[ToLower(j.ref)].tree == tree
    requires Wf(tree.entries) && GoodSubdir(tree.entries, j.subdir, segs)
    requires st.files.Keys <= tracked && SubmodulesInitialise(net, j)
    ensures var s := Prepared(net, st, j, store, tracked, stamp);
            s.err.None? && s.stamp == stamp && s.st.files == TreeFiles(tree.entries, store.blobs, stamp)
  {
    assert StandsFor(store.commits, j.ref, ToLower(j.ref));
    var files := TreeFiles(tree.entries, store.blobs, stamp);
    assert (st.files - tracked) + files == files;
    assert FullCheckout(st.files, tracked, store, tree, stamp) == Some(files);
    if j.subdir != "" {
      DirectoryThere(tree.entries, store.blobs, j.subdir, segs, stamp);
    }
  }

  // The full clone finds the commit.

  lemma FullCloneFinds(net: Network, st: State, j: Job, auth: Auth, segs: seq<string>)
    requires Honest(net, j.ctx) && Pinned(net.remote, j) && Cloneable(net.remote, j)
    requires ClonesReliably(net, auth) && SubmodulesInitialise(net, j)
    requires Wf(PinnedTree(net.remote, j).entries) && GoodSubdir(PinnedTree(net.remote, j).entries, j.subdir, segs)
    ensures var s := FullClone(net, st, j, auth);
            s.err.None? && s.st.files == TreeFiles(PinnedTree(net.remote, j).entries, net.remote.store.blobs, s.stamp)
  {
    var req := FullReq(j, auth);
    assert CloneAttempts(j.ref) == [req.attempt];
    assert req.(attempt := req.attempt) == req;
    var reply := net.clone(st.clock, req);
    assert HonestClone(net.remote, j.ctx, st.clock, req, reply);
    assert Whole(reply.store, ToLower(j.ref)) by {
      assert InDepth(net.remote, req.depth, ToLower(j.ref)) || net.remote.head == Some(ToLower(j.ref));
    }
    var c := CloneByAttempts(net, st, req, CloneAttempts(j.ref), false);
    assert c.result == Repo(reply.store);
    PinnedChecksOut(net, c.st, j, reply.store, c.st.files.Keys, c.stamp, segs);
  }

  // The pinned stage either has the whole commit or steps aside.

  lemma PinnedStage(net: Network, clock: nat, j: Job, auth: Auth)
    requires Honest(net, j.ctx) && Pinned(net.remote, j) && auth in net.remote.accepted
    requires ModernFiles(PinnedTree(net.remote, j).entries)
    ensures var p, h := PinnedCommitClone(net, clock, j, auth), ToLower(j.ref);
            && (if p.err.Some? then PinnedUnsupported in p.err.value || !LedTo(net.remote, h)
                else PartOf(p.store, net.remote.store) && Whole(p.store, h))
            && (ServesByHash(net, auth) && Grants(net.remote, h) ==> p.err.None?)
  {
    var h := ToLower(j.ref);
    var req := FetchReq({h}, NoFilter, if j.depth > 0 || j.configDepth > 0 then ResolveDepth(j) else 1, auth);
    assert HonestFetch(net.remote, j.ctx, clock, req, net.fetch(clock, req));
    if Grants(net.remote, h) && ServesByHash(net, auth) {
      PinnedServed(net, clock, j, auth);
    }
    var p := PinnedCommitClone(net, clock, j, auth);
    if p.err.None? {
      CompleteChecksOut(map[], {}, p.store, p.store.commits[h].tree, clock);
    }
  }

  lemma PinnedServed(net: Network, clock: nat, j: Job, auth: Auth)
    requires ServesByHash(net, auth) && Grants(net.remote, ToLower(j.ref))
    ensures PinnedCommitClone(net, clock, j, auth).err.None?
  {
    var h := ToLower(j.ref);
    var req := FetchReq({h}, NoFilter, if j.depth > 0 || j.configDepth > 0 then ResolveDepth(j) else 1, auth);
    assert ServedWhole(net.remote, req, net.fetch(clock, req));
    var p := PinnedCommitClone(net, clock, j, auth);
    assert Whole(p.store, h);
    assert CompleteIn(p.store, p.store.commits[h].tree);
  }

  /** By a full clone, or by its hash. */
  ghost predicate Obtainable(net: Network, j: Job, auth: Auth) {
    Cloneable(net.remote, j) || (Grants(net.remote, ToLower(j.ref)) && ServesByHash(net, auth))
  }

  /** What can be obtained is led to, and an unrestricted server grants it. */
  lemma ObtainableGranted(net: Network, j: Job, auth: Auth)
    requires Obtainable(net, j, auth)
    ensures LedTo(net.remote, ToLower(j.ref)) && (net.remote.restricted || Grants(net.remote, ToLower(j.ref)))
  {
    var remote, h := net.remote, ToLower(j.ref);
    if InDepth(remote, ResolveDepth(j), h) {
      DepthOnBranch(remote, ResolveDepth(j), h);
    }
    TipWithin(remote, 0, h);
  }

  lemma WithoutSparseFinds(net: Network, st: State, j: Job, auth: Auth, segs: seq<string>)
    requires Honest(net, j.ctx) && Pinned(net.remote, j) && Obtainable(net, j, auth)
    requires ClonesReliably(net, auth) && SubmodulesInitialise(net, j) && auth in net.remote.accepted
    requires Wf(PinnedTree(net.remote, j).entries) && GoodSubdir(PinnedTree(net.remote, j).entries, j.subdir, segs)
    requires ModernFiles(PinnedTree(net.remote, j).entries) && st.files == map[]
    ensures var s := WithoutSparse(net, st, j, auth);
            s.err.None? && s.st.files == TreeFiles(PinnedTree(net.remote, j).entries, net.remote.store.blobs, s.stamp)
  {
    PinnedStage(net, st.clock, j, auth);
    ObtainableGranted(net, j, auth);
    var p := PinnedCommitClone(net, st.clock, j, auth);
    if p.err.None? {
      PinnedChecksOut(net, State(p.clock, st.files), j, p.store, {}, st.clock, segs);
    } else {
      FullCloneFinds(net, State(p.clock, map[]), j, auth, segs);
    }
  }

  // The sparse stage either writes the cone or steps aside.

  lemma WholeTreesMerge(remote: Remote, a: set<Hash>, b: set<Hash>)
    requires WholeTrees(remote, a) && WholeTrees(remote, b)
    ensures WholeTrees(remote, a + b)
  {
    forall h | h in remote.store.commits && remote.store.commits[h].tree.hash in a + b
      ensures TreesPresent(a + b, remote.store.commits[h].tree.entries)
    {
      var tree := remote.store.commits[h].tree;
      if tree.hash in a {
        assert TreesPresent(a, tree.entries);
      } else {
        assert TreesPresent(b, tree.entries);
      }
    }
  }

  /** What the sparse clone leaves to build on. */
  ghost predicate Anchored(remote: Remote, store: Store) {
    PartOf(store, remote.store) && WholeTrees(remote, store.trees)
  }

  lemma SparseAnchor(net: Network, clock: nat, j: Job, auth: Auth)
    requires Honest(net, j.ctx) && Pinned(net.remote, j) && ServesTrees(net, auth)
    requires net.remote.head.Some?
    ensures var c := SparseClone(net, clock, j, auth);
            if c.err.Some? then SparseUnsupported in c.err.value else Anchored(net.remote, c.store)
  {
    var req := SparseReq(j, auth);
    assert SparseAttempts(j) == [req.attempt];
    assert req.(attempt := req.attempt) == req;
    var reply := net.clone(clock, req);
    assert HonestClone(net.remote, j.ctx, clock, req, reply);
    if reply.CloneFailed? {
      assert TryAttempts(net, State(clock, map[]), req, [req.attempt], true, {}).result == NoRepo(ErrOf(reply.failure));
    }
  }

  lemma SparseFinds(net: Network, clock: nat, store: Store, j: Job, auth: Auth)
    requires Honest(net, j.ctx) && Pinned(net.remote, j) && ServesTrees(net, auth) && Anchored(net.remote, store)
    requires net.remote.restricted || Grants(net.remote, ToLower(j.ref))
    ensures var l := SparseCommit(net, clock, store, j, auth);
            if l.err.Some? then SparseUnsupported in l.err.value
            else l.commit == ToLower(j.ref) && Anchored(net.remote, l.store)
                 && l.commit in l.store.commits && l.store.commits[l.commit].tree.hash in l.store.trees
  {
    var here := ResolveHash(store.commits, j.ref);
    if here.Some? { assert StandsFor(store.commits, j.ref, here.value); }
    EnsuredTrees(net, clock, store, j, auth);
  }

  lemma EnsuredTrees(net: Network, clock: nat, store: Store, j: Job, auth: Auth)
    requires Honest(net, j.ctx) && Pinned(net.remote, j) && ServesTrees(net, auth) && Anchored(net.remote, store)
    requires net.remote.restricted || Grants(net.remote, ToLower(j.ref))
    ensures var h := ToLower(j.ref);
            var f := EnsureCommitTrees(net, clock, store, h, auth);
            if f.err.Some? then WantsRestricted in f.err.value
            else Anchored(net.remote, f.store) && h in f.store.commits && f.store.commits[h].tree.hash in f.store.trees
  {
    var req := FetchReq({ToLower(j.ref)}, BlobNone, 1, auth);
    assert ToLower(j.ref) in req.wants && req.wants <= net.remote.store.commits.Keys;
    assert ServedTrees(net.remote, req.wants, net.fetch(clock, req));
    assert HonestFetch(net.remote, j.ctx, clock, req, net.fetch(clock, req));
    TreesFetched(net, clock, store, ToLower(j.ref), auth);
  }

  lemma TreesFetched(net: Network, clock: nat, store: Store, h: Hash, auth: Auth)
    requires net.remote.restricted || Grants(net.remote, h)
    requires Anchored(net.remote, store) && h in net.remote.store.commits
    requires var reply := net.fetch(clock, FetchReq({h}, BlobNone, 1, auth));
             ServedTrees(net.remote, {h}, reply) && (reply.Fetched? ==> PartOf(reply.got, net.remote.store))
    ensures var f := FetchCommitByHash(net, clock, store, h, BlobNone, 1, auth);
            if f.err.Some? then WantsRestricted in f.err.value
            else Anchored(net.remote, f.store) && h in f.store.commits && f.store.commits[h].tree.hash in f.store.trees
  {
    var reply := net.fetch(clock, FetchReq({h}, BlobNone, 1, auth));
    if reply.Fetched? {
      assert h in {h};
      AnchoredMerge(net.remote, store, reply.got);
    }
  }

  lemma AnchoredMerge(remote: Remote, a: Store, b: Store)
    requires Anchored(remote, a) && Anchored(remote, b)
    ensures Anchored(remote, Merge(a, b))
  {
    WholeTreesMerge(remote, a.trees, b.trees);
  }

  /** From a store that holds a commit's trees on: the cone's files are written, or the stage steps aside. */
  lemma ConeWritten(net: Network, st: State, j: Job, store: Store, h: Hash, segs: seq<string>, auth: Auth, stamp: nat)
    requires Honest(net, j.ctx) && PartOf(store, net.remote.store) && Whole(net.remote.store, h) && st.files == map[]
    requires Rooted(j.root) && CleanSegs(j.root) != []
    requires h in store.commits && store.commits[h].tree.hash in store.trees
    requires TreesPresent(store.trees, store.commits[h].tree.entries)
    requires Wf(net.remote.store.commits[h].tree.entries) && j.subdir != ""
    requires GoodSubdir(net.remote.store.commits[h].tree.entries, j.subdir, segs)
    ensures var sel := Select(store.commits, store.trees, h, j.subdir);
            && sel.Some?
            && var s := SparseWrite(net, st, j, store, sel.value.files, auth, stamp);
               && s.stamp == stamp
               && if s.err.Some? then SparseUnsupported in s.err.value
                  else s.st.files == Restrict(TreeFiles(net.remote.store.commits[h].tree.entries,
                    net.remote.store.blobs, stamp), segs)
  {
    var tree := net.remote.store.commits[h].tree;
    TreeAtDir(store.trees, tree, segs, ItemAt(tree.entries, segs).value.tree);
    SelectRows(store.trees, tree, segs);
    var sel := SelectIn(store.trees, tree, j.subdir).value;
    assert Select(store.commits, store.trees, h, j.subdir) == Some(sel);
    BlobsFetched(net, st.clock, j, store, sel.files, auth);
    var f := FetchBlobs(net, st.clock, store, sel.files, auth);
    if f.err.None? {
      WrittenCone(j.root, store.trees, f.store.blobs, tree, segs, sel, net.remote.store.blobs, stamp);
    }
  }

  /** What the stage writes of a commit, if it writes at all, is the cone's files. */
  lemma SparseWritten(
    net: Network, st: State, j: Job, store: Store, tip: Hash, segs: seq<string>, sel: Selection, auth: Auth, stamp: nat)
    requires Honest(net, j.ctx) && Rooted(j.root) && CleanSegs(j.root) != [] && st.files == map[]
    requires PartOf(store, net.remote.store) && tip in store.commits && Whole(net.remote.store, tip)
    requires Wf(store.commits[tip].tree.entries) && |segs| > 0 && Names(segs)
    requires SelectIn(store.trees, store.commits[tip].tree, Join(segs, '/')) == Some(sel)
    requires SparseWrite(net, st, j, store, sel.files, auth, stamp).err.None?
    ensures SparseWrite(net, st, j, store, sel.files, auth, stamp).st.files
         == Restrict(TreeFiles(net.remote.store.commits[tip].tree.entries, net.remote.store.blobs, stamp), segs)
  {
    BlobsFetched(net, st.clock, j, store, sel.files, auth);
    var f := FetchBlobs(net, st.clock, store, sel.files, auth);
    var tree := store.commits[tip].tree;
    WrittenCone(j.root, store.trees, f.store.blobs, tree, segs, sel, net.remote.store.blobs, stamp);
  }

  lemma BlobsFetched(net: Network, clock: nat, j: Job, store: Store, files: seq<SparseEntry>, auth: Auth)
    requires Honest(net, j.ctx) && PartOf(store, net.remote.store)
    ensures var f := FetchBlobs(net, clock, store, files, auth);
            if f.err.Some? then SparseUnsupported in f.err.value else PartOf(f.store, net.remote.store)
  {
    var req := FetchReq(BlobsOf(files) - store.blobs.Keys, NoFilter, 0, auth);
    assert HonestFetch(net.remote, j.ctx, clock, req, net.fetch(clock, req));
  }

  /** Writing a selection leaves the cone, unless a blob was not delivered. */
  lemma WrittenCone(
    root: string, trees: set<Hash>, blobs: map<Hash, Bytes>, tree: Tree, segs: seq<string>, sel: Selection,
    all: map<Hash, Bytes>, stamp: nat)
    requires Rooted(root) && CleanSegs(root) != []
    requires |segs| > 0 && Names(segs) && Wf(tree.entries) && SelectIn(trees, tree, Join(segs, '/')) == Some(sel)
    requires BlobsPresent(all, tree.entries) && forall h :: h in blobs ==> h in all && blobs[h] == all[h]
    ensures var w := WriteAll(map[], root, blobs, sel.files, stamp);
            && w.status != Escaped
            && (w.status == Written.Written ==> w.files == Restrict(TreeFiles(tree.entries, all, stamp), segs))
  {
    SelectRows(trees, tree, segs);
    SelectIsCone(trees, tree, segs);
    ExactConeNames(sel.files, tree.entries, segs);
    WriteAllPlain(map[], root, blobs, sel.files, stamp);
    if WriteAll(map[], root, blobs, sel.files, stamp).status == Written.Written {
      SparseRefinesCheckout(root, Store(map[], trees, blobs, None), tree, segs, sel, all, stamp);
    }
  }

  /** Writing plain paths never escapes, and completes only with every blob at hand. */
  lemma {:induction false} WriteAllPlain(
    files: Files, root: string, blobs: map<Hash, Bytes>, entries: seq<SparseEntry>, stamp: nat)
    requires Rooted(root) && CleanSegs(root) != []
    requires forall e :: e in entries ==> Names(Split(e.path, '/')) && e.path != ""
    ensures var w := WriteAll(files, root, blobs, entries, stamp);
            w.status != Escaped && (w.status == Written.Written ==> BlobsOf(entries) <= blobs.Keys)
    decreases entries
  {
    if entries != [] {
      var n := |entries| - 1;
      var front, e := entries[..n], entries[n];
      assert entries == front + [e];
      WriteAllPlain(files, root, blobs, front, stamp);
      PlainKey(root, e.path);
      BlobsOfConcat(front, e);
    }
  }

  lemma BlobsOfConcat(front: seq<SparseEntry>, e: SparseEntry)
    ensures BlobsOf(front + [e]) == BlobsOf(front) + {e.blob}
  {
    assert forall f :: f in front + [e] <==> f in front || f == e;
  }

  lemma SparseStage(net: Network, st: State, j: Job, auth: Auth, segs: seq<string>)
    requires Honest(net, j.ctx) && Pinned(net.remote, j) && ServesTrees(net, auth) && st.files == map[]
    requires Wf(PinnedTree(net.remote, j).entries) && j.subdir != ""
    requires GoodSubdir(PinnedTree(net.remote, j).entries, j.subdir, segs)
    requires net.remote.restricted || Grants(net.remote, ToLower(j.ref))
    requires net.remote.head.Some?
    ensures var s := SparseDownload(net, st, j, auth);
            if s.err.Some? then SparseUnsupported in s.err.value
            else s.st.files == Restrict(TreeFiles(PinnedTree(net.remote, j).entries, net.remote.store.blobs, s.stamp),
              segs)
  {
    SparseAnchor(net, st.clock, j, auth);
    var c := SparseClone(net, st.clock, j, auth);
    if c.err.None? {
      SparseFinds(net, c.clock, c.store, j, auth);
      var l := SparseCommit(net, c.clock, c.store, j, auth);
      if l.err.None? {
        ConeWritten(net, State(l.clock, st.files), j, l.store, l.commit, segs, auth, st.clock);
      }
    }
  }

  /**
   * Nothing is lost. For every honest remote, restricted or not, however it phrases a refusal and
   * whatever it leaves out of a pack: with an accepted credential and reliable ordinary clones, a
   * full hash of HEAD or of a commit within the clone depth of a branch or tag, where HEAD resolves,
   * or of a commit that the server serves by hash downloads, and leaves exactly that commit's files,
   * or, when a subdirectory was asked for and could be had alone, exactly those in its cone. With a
   * subdirectory HEAD has to resolve in any case.
   */
  lemma PinnedCommitIsNeverLost(net: Network, st: State, j: Job, auth: Auth, segs: seq<string>)
    requires Honest(net, j.ctx) && Pinned(net.remote, j) && Obtainable(net, j, auth)
    requires ClonesReliably(net, auth) && SubmodulesInitialise(net, j) && auth in net.remote.accepted
    requires Wf(PinnedTree(net.remote, j).entries) && ModernFiles(PinnedTree(net.remote, j).entries)
    requires GoodSubdir(PinnedTree(net.remote, j).entries, j.subdir, segs)
    requires j.subdir != "" ==> ServesTrees(net, auth) && net.remote.head.Some?
    requires st.files == map[]
    ensures var s := CloneAndPrepare(net, st, j, auth);
            var full := TreeFiles(PinnedTree(net.remote, j).entries, net.remote.store.blobs, s.stamp);
            s.err.None? && (s.st.files == full || (j.subdir != "" && s.st.files == Restrict(full, segs)))
  {
    ObtainableGranted(net, j, auth);
    if j.subdir == "" {
      WithoutSparseFinds(net, st, j, auth, segs);
    } else {
      SparseStage(net, st, j, auth, segs);
      var s := SparseDownload(net, st, j, auth);
      if s.err.Some? {
        WithoutSparseFinds(net, State(s.st.clock, map[]), j, auth, segs);
      }
    }
  }

  // The commits that can be lost.

  /** The remote has every commit that what it advertises leads to, and all of each. */
  ghost predicate Sane(remote: Remote) {
    && (forall h :: h in remote.store.commits ==> Whole(remote.store, h))
    && (forall h :: LedTo(remote, h) ==> h in remote.store.commits)
  }

  /**
   * What a clone shows: the commit asked for and, when it is of everything, what branches and tags
   * lead to within its depth.
   */
  ghost function Shown(remote: Remote, tip: Hash, req: CloneReq): Store {
    var commits := map h | h in remote.store.commits
        && (h == tip || (Everything(req) && InDepth(remote, req.depth, h))) ::
        remote.store.commits[h];
    remote.store.(commits := commits, head := Some(tip))
  }

  ghost function CloneOf(remote: Remote, req: CloneReq): CloneReply {
    if req.auth !in remote.accepted then CloneFailed(None, map[])
    else
      match Target(remote, req.attempt)
      case None => CloneFailed(Some(RefNotFound), map[])
      case Some(tip) => Cloned(Shown(remote, tip, req))
  }

  ghost predicate Serves(remote: Remote, req: FetchReq) {
    && req.filter != TreeNone && req.auth in remote.accepted
    && forall w :: w in req.wants ==> w in remote.store.commits && Grants(remote, w)
  }

  /** Commits that are granted are served alone, with all trees and blobs; any other request by hash is refused. */
  ghost function FetchOf(remote: Remote, req: FetchReq): FetchReply {
    if Serves(remote, req) then
      var commits := map h | h in remote.store.commits && h in req.wants :: remote.store.commits[h];
      Fetched(remote.store.(commits := commits, head := None))
    else FetchFailed(None)
  }

  /** A network that clones what it shows and serves by hash what it grants, and nothing more. */
  ghost predicate Strict(net: Network) {
    && (forall n: nat, req: CloneReq :: net.clone(n, req) == CloneOf(net.remote, req))
    && (forall n: nat, req: FetchReq :: net.fetch(n, req) == FetchOf(net.remote, req))
  }

  lemma CloneOfHonest(remote: Remote, ctx: Context, n: nat, req: CloneReq)
    requires Sane(remote)
    ensures HonestClone(remote, ctx, n, req, CloneOf(remote, req))
  {
    if req.auth in remote.accepted && Target(remote, req.attempt).Some? {
      var tip := Target(remote, req.attempt).value;
      var shown := Shown(remote, tip, req);
      TipWithin(remote, req.depth, tip);
      assert Advertised(remote, tip) && Whole(remote.store, tip);
      forall h | InDepth(remote, req.depth, h) && Everything(req) ensures Whole(shown, h) {
        DepthOnBranch(remote, req.depth, h);
        assert Whole(remote.store, h);
      }
    }
  }

  lemma FetchOfHonest(remote: Remote, ctx: Context, n: nat, req: FetchReq)
    requires Sane(remote)
    ensures HonestFetch(remote, ctx, n, req, FetchOf(remote, req))
    ensures req.auth in remote.accepted && req.filter == NoFilter ==> ServedWhole(remote, req, FetchOf(remote, req))
    ensures req.auth in remote.accepted && req.filter == BlobNone && req.wants <= remote.store.commits.Keys ==>
              ServedTrees(remote, req.wants, FetchOf(remote, req))
  {
    var reply := FetchOf(remote, req);
    if reply.Fetched? {
      forall h | h in reply.got.commits ensures Wanted(remote, req.wants, h) {
        TipWithin(remote, 0, h);
      }
      assert WholeTrees(remote, reply.got.trees);
    }
    forall h | Grants(remote, h) && req.wants == {h} && req.auth in remote.accepted && req.filter == NoFilter
      ensures reply.Fetched? && Whole(reply.got, h)
    {
      TipWithin(remote, 0, h);
      assert Whole(remote.store, h);
      assert forall w :: w in req.wants ==> w == h;
    }
  }

  /** A commit such a network neither grants nor shows; without a HEAD it shows none. */
  ghost predicate Hidden(remote: Remote, j: Job) {
    !Grants(remote, ToLower(j.ref)) && !Cloneable(remote, j)
  }

  lemma HiddenNotShown(remote: Remote, j: Job, auth: Auth, tip: Hash)
    requires PinnedEligible(j) && Hidden(remote, j) && remote.head == Some(tip)
    ensures ToLower(j.ref) !in Shown(remote, tip, FullReq(j, auth)).commits
    ensures ToLower(j.ref) !in Shown(remote, tip, SparseReq(j, auth)).commits
  {
    TipWithin(remote, 0, ToLower(j.ref));
  }

  lemma StrictFullLoses(net: Network, st: State, j: Job, auth: Auth)
    requires Strict(net) && Sane(net.remote) && auth in net.remote.accepted && PinnedEligible(j)
    requires Hidden(net.remote, j)
    ensures FullClone(net, st, j, auth).err.Some?
  {
    var req := FullReq(j, auth);
    assert CloneAttempts(j.ref) == [req.attempt] && req.(attempt := req.attempt) == req;
    if net.remote.head.None? {
      NoHeadMisses(net, st, req, false, auth);
    } else {
      var tip := net.remote.head.value;
      var shown := Shown(net.remote, tip, req);
      assert net.clone(st.clock, req) == CloneOf(net.remote, req) == Cloned(shown);
      assert CloneByAttempts(net, st, req, [req.attempt], false).result == Repo(shown);
      HiddenNotShown(net.remote, j, auth, tip);
      assert forall h :: StandsFor(shown.commits, j.ref, h) ==> h == ToLower(j.ref);
    }
  }

  /** Both clones of a hash ask for HEAD. */
  lemma NoHeadMisses(net: Network, st: State, req: CloneReq, bare: bool, auth: Auth)
    requires Strict(net) && net.remote.head.None? && req.auth in net.remote.accepted && req.attempt.refName == ""
    ensures CloneByAttempts(net, st, req, [req.attempt], bare).result == NoRepo({RefNotFound})
  {
    assert req.(attempt := req.attempt) == req;
    assert net.clone(st.clock, req) == CloneFailed(Some(RefNotFound), map[]);
    var after := State(st.clock + 1, Left(map[], st.clock));
    assert [req.attempt][1..] == [];
    assert TryAttempts(net, after, req, [], bare, {RefNotFound}).result == AllMissing({RefNotFound});
  }

  lemma StrictRefuses(net: Network, clock: nat, j: Job, req: FetchReq)
    requires Strict(net) && Hidden(net.remote, j) && req.wants == {ToLower(j.ref)}
    ensures net.fetch(clock, req) == FetchFailed(None)
  {
    assert ToLower(j.ref) in req.wants;
  }

  lemma StrictWithoutSparseLoses(net: Network, st: State, j: Job, auth: Auth)
    requires Strict(net) && Sane(net.remote) && auth in net.remote.accepted
    requires PinnedEligible(j) && Hidden(net.remote, j) && forall n :: !j.ctx(n)
    ensures WithoutSparse(net, st, j, auth).err.Some?
  {
    var depth := if j.depth > 0 || j.configDepth > 0 then ResolveDepth(j) else 1;
    StrictRefuses(net, st.clock, j, FetchReq({ToLower(j.ref)}, NoFilter, depth, auth));
    var p := PinnedCommitClone(net, st.clock, j, auth);
    assert p.err.Some? && PinnedUnsupported in p.err.value;
    StrictFullLoses(net, State(p.clock, map[]), j, auth);
  }

  lemma StrictSparseLoses(net: Network, st: State, j: Job, auth: Auth)
    requires Strict(net) && Sane(net.remote) && auth in net.remote.accepted
    requires PinnedEligible(j) && Hidden(net.remote, j) && net.remote.head.Some?
    ensures SparseDownload(net, st, j, auth).err.Some?
  {
    var req, tip := SparseReq(j, auth), net.remote.head.value;
    assert SparseAttempts(j) == [req.attempt] && req.(attempt := req.attempt) == req;
    var shown := Shown(net.remote, tip, req);
    assert net.clone(st.clock, req) == CloneOf(net.remote, req) == Cloned(shown);
    var c := SparseClone(net, st.clock, j, auth);
    assert c.err.None? && c.store == shown;
    HiddenNotShown(net.remote, j, auth, tip);
    assert forall h :: StandsFor(shown.commits, j.ref, h) ==> h == ToLower(j.ref);
    StrictRefuses(net, c.clock, j, FetchReq({ToLower(j.ref)}, BlobNone, 1, auth));
  }

  /** Without a HEAD the sparse stage fails for good: its anchor is answered as missing. */
  lemma NoHeadSparseLoses(net: Network, st: State, j: Job, auth: Auth)
    requires Strict(net) && net.remote.head.None? && auth in net.remote.accepted && PinnedEligible(j)
    ensures SparseDownload(net, st, j, auth).err == Some({RefNotFound})
  {
    var req := SparseReq(j, auth);
    assert SparseAttempts(j) == [req.attempt];
    NoHeadMisses(net, State(st.clock, map[]), req, true, auth);
  }

  lemma StrictNetwork(remote: Remote, ctx: Context, auth: Auth) returns (net: Network)
    requires Sane(remote) && auth in remote.accepted
    ensures net.remote == remote && Strict(net) && Honest(net, ctx)
    ensures ClonesReliably(net, auth) && ServesByHash(net, auth) && ServesTrees(net, auth)
    ensures forall n: nat, h: Hash :: net.submodules(n, h).None?
  {
    net := Network(remote, (n: nat, req: CloneReq) => CloneOf(remote, req),
                   (n: nat, req: FetchReq) => FetchOf(remote, req), (n: nat, h: Hash) => None);
    forall n, req ensures HonestClone(remote, ctx, n, req, net.clone(n, req)) {
      CloneOfHonest(remote, ctx, n, req);
    }
    forall n: nat, req: FetchReq
      ensures HonestFetch(remote, ctx, n, req, net.fetch(n, req))
      ensures req.auth == auth && req.filter == NoFilter ==> ServedWhole(remote, req, net.fetch(n, req))
      ensures req.auth == auth && req.filter == BlobNone && req.wants <= remote.store.commits.Keys ==>
                ServedTrees(remote, req.wants, net.fetch(n, req))
    {
      FetchOfHonest(remote, ctx, n, req);
    }
    assert WholeTrees(remote, remote.store.trees);
  }

  /** With every assumption there is on it, this remote is sure to let the commit be downloaded. */
  ghost predicate Assured(remote: Remote, j: Job, auth: Auth) {
    forall net: Network, st: State :: net.remote == remote && st.files == map[] && Dependable(net, j, auth) ==>
      CloneAndPrepare(net, st, j, auth).err.None?
  }

  ghost predicate Dependable(net: Network, j: Job, auth: Auth) {
    && Honest(net, j.ctx) && ClonesReliably(net, auth) && ServesByHash(net, auth) && ServesTrees(net, auth)
    && SubmodulesInitialise(net, j)
  }

  /** Served by hash, or within the clone depth; where HEAD does not resolve only the first, and no subdirectory. */
  ghost predicate Secured(remote: Remote, j: Job) {
    var h := ToLower(j.ref);
    if remote.head.Some? then Grants(remote, h) || InDepth(remote, ResolveDepth(j), h)
    else Grants(remote, h) && j.subdir == ""
  }

  /**
   * A commit the remote has is sure to be downloaded exactly when, HEAD resolving, the server serves
   * it by hash or it lies within the clone depth of a branch or tag, or, HEAD not resolving, the server
   * serves it by hash and no subdirectory is asked for. Where a server serves only what it advertises,
   * being in the history of any other reference, such as one of a merge request, is not enough; and
   * without a HEAD even the tip of a branch is lost when a subdirectory is asked for.
   */
  lemma LostExactlyOffBranches(remote: Remote, j: Job, auth: Auth, segs: seq<string>)
    requires Sane(remote) && auth in remote.accepted && Pinned(remote, j)
    requires Wf(PinnedTree(remote, j).entries) && ModernFiles(PinnedTree(remote, j).entries)
    requires GoodSubdir(PinnedTree(remote, j).entries, j.subdir, segs)
    ensures Assured(remote, j, auth) <==> Secured(remote, j)
  {
    if Secured(remote, j) {
      forall net: Network, st: State | net.remote == remote && st.files == map[] && Dependable(net, j, auth)
        ensures CloneAndPrepare(net, st, j, auth).err.None?
      {
        PinnedCommitIsNeverLost(net, st, j, auth, segs);
      }
    } else {
      LostSometimes(remote, j, auth);
    }
  }

  lemma LostSometimes(remote: Remote, j: Job, auth: Auth)
    requires Sane(remote) && auth in remote.accepted && Pinned(remote, j) && !Secured(remote, j)
    ensures !Assured(remote, j, auth)
  {
    TipWithin(remote, 0, ToLower(j.ref));
    var net := StrictNetwork(remote, j.ctx, auth);
    var st := State(0, map[]);
    if j.subdir == "" {
      StrictWithoutSparseLoses(net, st, j, auth);
    } else if remote.head.None? {
      NoHeadSparseLoses(net, st, j, auth);
    } else {
      StrictSparseLoses(net, st, j, auth);
      StrictWithoutSparseLoses(net, State(SparseDownload(net, st, j, auth).st.clock, map[]), j, auth);
    }
    assert CloneAndPrepare(net, st, j, auth).err.Some?;
  }

  // Through the credential chain.

  /**
   * With a chain of credentials in front: when the turn comes to one that the remote accepts, every
   * earlier one having been rejected, a commit that is sure to be had is what the download of this URL
   * leaves.
   */
  lemma SecuredIsLeft(c: Candidate, st: State, j: Job, b: nat, reached: seq<State>, segs: seq<string>)
    requires c.guard.None? && Usable(c.sources, b) && st.files == map[]
    requires reached != [] && TakesTurns(c.net, j, st, Offered(c.sources[..b]), reached)
    requires Offered(c.sources[..b])[|reached| - 1] in c.net.remote.accepted
    requires Dependable(c.net, j, Offered(c.sources[..b])[|reached| - 1])
    requires Pinned(c.net.remote, j) && Secured(c.net.remote, j)
    requires Wf(PinnedTree(c.net.remote, j).entries) && ModernFiles(PinnedTree(c.net.remote, j).entries)
    requires GoodSubdir(PinnedTree(c.net.remote, j).entries, j.subdir, segs)
    ensures var g := GitDownload(c, st, j).stage;
            var full := TreeFiles(PinnedTree(c.net.remote, j).entries, c.net.remote.store.blobs, g.stamp);
            g.err.None? && (g.st.files == full || (j.subdir != "" && g.st.files == Restrict(full, segs)))
  {
    var offered, n := Offered(c.sources[..b]), |reached| - 1;
    assert reached[n].files == map[] by {
      if n > 0 {
        assert Rejected(c.net, j, offered[n - 1], reached[n - 1], reached[n]);
      }
    }
    PinnedCommitIsNeverLost(c.net, reached[n], j, offered[n], segs);
    GitByCredentials(c, st, j, b, reached);
  }
}
