/** What a remote is asked for, and with which credential: a download depends on no other answer. */
module Requests {
  import opened Options
  import opened Strings
  import opened Paths
  import opened GitObjects
  import opened Cone
  import opened Checkout
  import opened Refs
  import opened Remotes
  import opened Engine
  import opened Verdicts
  import opened ShortHash

  /**
   * The depth of a clone: the URL's, or else the configured one; without either, all for a hash and
   * the tip for a name.
   */
  predicate ClonesTo(j: Job, depth: nat) {
    depth == if j.depth > 0 || j.configDepth > 0 then Given(j) else if LooksLikeCommitHash(j.ref) then 0 else 1
  }

  function Given(j: Job): nat {
    if j.depth > 0 then j.depth else j.configDepth
  }

  /**
   * Every clone carries the credential. One for a subdirectory is partial and of one branch, and takes
   * the tip alone when a hash is to be looked up; a full one is of one branch for a name, and of
   * everything for a hash, whose submodules are left to the checkout.
   */
  predicate MayClone(j: Job, auth: Auth, req: CloneReq) {
    var hash := LooksLikeCommitHash(j.ref);
    && req.auth == auth && (hash ==> req.attempt.refName == "")
    && if req.filtered then
         && j.subdir != "" && req.attempt.single && !req.allTags && !req.recurse
         && (if hash then req.depth == 1 else ClonesTo(j, req.depth))
       else
         && req.attempt.single == !hash && req.allTags == hash && req.recurse == (j.recurse && !hash)
         && ClonesTo(j, req.depth)
  }

  /**
   * Every fetch carries the credential too: for a full hash the commit itself, to the given depth or
   * alone; for a subdirectory one commit with its trees, the commit graph for a short hash, and blobs
   * of files in the cone, nothing outside it.
   */
  ghost predicate MayFetch(remote: Remote, j: Job, auth: Auth, segs: seq<string>, req: FetchReq) {
    && req.auth == auth
    && match req.filter
       case NoFilter =>
         || (&& |j.ref| == 40 && req.wants == {ToLower(j.ref)}
             && req.depth == if j.depth > 0 || j.configDepth > 0 then Given(j) else 1)
         || (j.subdir != "" && req.depth == 0 && req.wants != {} && OfCone(remote, req.wants, segs))
       case BlobNone => j.subdir != "" && LooksLikeCommitHash(j.ref) && |req.wants| == 1 && req.depth == 1
       case TreeNone => j.subdir != "" && Short(j) && |req.wants| == 1 && req.depth == 0
  }

  ghost predicate OfCone(remote: Remote, blobs: set<Hash>, segs: seq<string>) {
    exists h :: h in remote.store.commits && forall b :: b in blobs ==>
      InConeOf(remote.store.commits[h].tree.entries, b, segs)
  }

  ghost predicate InConeOf(es: seq<Entry>, b: Hash, segs: seq<string>) {
    exists path, mode :: InCone(path, segs) && ItemAt(es, path) == Some(File(mode, b))
  }

  /** Two networks that answer alike what may be asked. */
  ghost predicate Alike(a: Network, b: Network, j: Job, auth: Auth, segs: seq<string>) {
    && a.remote == b.remote
    && (forall n: nat, req: CloneReq :: MayClone(j, auth, req) ==> a.clone(n, req) == b.clone(n, req))
    && (forall n: nat, req: FetchReq :: MayFetch(a.remote, j, auth, segs, req) ==> a.fetch(n, req) == b.fetch(n, req))
    && (forall n: nat, h: Hash :: a.submodules(n, h) == b.submodules(n, h))
  }

  lemma {:induction false} TriesAlike(
    a: Network, b: Network, j: Job, auth: Auth, segs: seq<string>, st: State, req: CloneReq, attempts: seq<Attempt>,
    bare: bool, last: Err)
    requires Alike(a, b, j, auth, segs) && forall x :: x in attempts ==> MayClone(j, auth, req.(attempt := x))
    ensures TryAttempts(a, st, req, attempts, bare, last) == TryAttempts(b, st, req, attempts, bare, last)
    decreases attempts
  {
    if attempts != [] {
      assert attempts[0] in attempts;
      var reply := a.clone(st.clock, req.(attempt := attempts[0]));
      assert reply == b.clone(st.clock, req.(attempt := attempts[0]));
      if reply.CloneFailed? {
        TriesAlike(a, b, j, auth, segs, State(st.clock + 1, Left(reply.left, st.clock)), req, attempts[1..], bare,
          ErrOf(reply.failure));
      }
    }
  }

  lemma AttemptsAsked(j: Job, auth: Auth, x: Attempt)
    ensures x in CloneAttempts(j.ref) ==> MayClone(j, auth, FullReq(j, auth).(attempt := x))
    ensures x in SparseAttempts(j) && j.subdir != "" ==> MayClone(j, auth, SparseReq(j, auth).(attempt := x))
  {}

  lemma FullAlike(a: Network, b: Network, j: Job, auth: Auth, segs: seq<string>, st: State)
    requires Alike(a, b, j, auth, segs)
    ensures FullClone(a, st, j, auth) == FullClone(b, st, j, auth)
  {
    forall x | x in CloneAttempts(j.ref) ensures MayClone(j, auth, FullReq(j, auth).(attempt := x)) {
      AttemptsAsked(j, auth, x);
    }
    TriesAlike(a, b, j, auth, segs, st, FullReq(j, auth), CloneAttempts(j.ref), false, {});
    var c := CloneByAttempts(a, st, FullReq(j, auth), CloneAttempts(j.ref), false);
    if c.result.Repo? {
      PreparedAlike(a, b, c.st, j, c.result.store, c.st.files.Keys, c.stamp);
    }
  }

  lemma PreparedAlike(a: Network, b: Network, st: State, j: Job, store: Store, tracked: set<string>, stamp: nat)
    requires forall n: nat, h: Hash :: a.submodules(n, h) == b.submodules(n, h)
    ensures Prepared(a, st, j, store, tracked, stamp) == Prepared(b, st, j, store, tracked, stamp)
  {}

  lemma WithoutSparseAlike(a: Network, b: Network, j: Job, auth: Auth, segs: seq<string>, st: State)
    requires Alike(a, b, j, auth, segs)
    ensures WithoutSparse(a, st, j, auth) == WithoutSparse(b, st, j, auth)
  {
    if !PinnedEligible(j) {
      FullAlike(a, b, j, auth, segs, st);
    } else {
      var depth := if j.depth > 0 || j.configDepth > 0 then ResolveDepth(j) else 1;
      var req := FetchReq({ToLower(j.ref)}, NoFilter, depth, auth);
      assert MayFetch(a.remote, j, auth, segs, req);
      assert a.fetch(st.clock, req) == b.fetch(st.clock, req);
      var p := PinnedCommitClone(a, st.clock, j, auth);
      assert p == PinnedCommitClone(b, st.clock, j, auth);
      FullAlike(a, b, j, auth, segs, State(p.clock, map[]));
      if p.err.None? {
        PreparedAlike(a, b, State(p.clock, st.files), j, p.store, {}, st.clock);
      }
    }
  }

  lemma SparseCloneAlike(a: Network, b: Network, j: Job, auth: Auth, segs: seq<string>, clock: nat)
    requires Alike(a, b, j, auth, segs) && j.subdir != ""
    ensures SparseClone(a, clock, j, auth) == SparseClone(b, clock, j, auth)
  {
    forall x | x in SparseAttempts(j) ensures MayClone(j, auth, SparseReq(j, auth).(attempt := x)) {
      AttemptsAsked(j, auth, x);
    }
    TriesAlike(a, b, j, auth, segs, State(clock, map[]), SparseReq(j, auth), SparseAttempts(j), true, {});
  }

  lemma TreesAlike(
    a: Network, b: Network, j: Job, auth: Auth, segs: seq<string>, clock: nat, store: Store, h: Hash)
    requires Alike(a, b, j, auth, segs) && j.subdir != "" && LooksLikeCommitHash(j.ref)
    ensures EnsureCommitTrees(a, clock, store, h, auth) == EnsureCommitTrees(b, clock, store, h, auth)
  {
    var req := FetchReq({h}, BlobNone, 1, auth);
    assert MayFetch(a.remote, j, auth, segs, req);
  }

  lemma CommitAlike(a: Network, b: Network, j: Job, auth: Auth, segs: seq<string>, clock: nat, store: Store)
    requires Alike(a, b, j, auth, segs) && j.subdir != ""
    ensures SparseCommit(a, clock, store, j, auth) == SparseCommit(b, clock, store, j, auth)
  {
    if LooksLikeCommitHash(j.ref) {
      forall c: nat, s: Store, h: Hash
        ensures EnsureCommitTrees(a, c, s, h, auth) == EnsureCommitTrees(b, c, s, h, auth)
      {
        TreesAlike(a, b, j, auth, segs, c, s, h);
      }
      if store.head.Some? && Short(j) {
        var req := FetchReq({store.head.value}, TreeNone, 0, auth);
        assert MayFetch(a.remote, j, auth, segs, req);
        assert FetchObjects(a, clock, store, req) == FetchObjects(b, clock, store, req);
      }
    }
  }

  /** What the stage has found is the remote's. */
  lemma CommitPart(net: Network, clock: nat, j: Job, auth: Auth)
    requires Honest(net, j.ctx) && SparseClone(net, clock, j, auth).err.None?
    ensures var c := SparseClone(net, clock, j, auth);
            PartOf(SparseCommit(net, c.clock, c.store, j, auth).store, net.remote.store)
  {
    ClonedPart(net, j.ctx, State(clock, map[]), SparseReq(j, auth), SparseAttempts(j), true, {});
    var c := SparseClone(net, clock, j, auth);
    LocatedPart(net, c.clock, c.store, j, auth);
  }

  lemma SelectedInCone(store: Store, remote: Remote, h: Hash, segs: seq<string>, sel: Selection)
    requires PartOf(store, remote.store) && |segs| > 0 && Names(segs)
    requires forall c :: c in remote.store.commits ==> Wf(remote.store.commits[c].tree.entries)
    requires Select(store.commits, store.trees, h, Join(segs, '/')) == Some(sel)
    ensures OfCone(remote, BlobsOf(sel.files) - store.blobs.Keys, segs)
  {
    var tree := remote.store.commits[h].tree;
    SelectRows(store.trees, tree, segs);
    SelectIsCone(store.trees, tree, segs);
    forall b | b in BlobsOf(sel.files) ensures InConeOf(tree.entries, b, segs) {
      var f :| f in sel.files && f.blob == b;
      assert SparseEntry(f.path, f.mode, f.blob) in sel.files;
      assert ItemAt(tree.entries, Split(f.path, '/')) == Some(File(f.mode, b));
    }
  }

  lemma SparseAlike(a: Network, b: Network, j: Job, auth: Auth, segs: seq<string>, st: State)
    requires Honest(a, j.ctx) && Downloadable(a.remote, j, segs) && Alike(a, b, j, auth, segs) && j.subdir != ""
    ensures SparseDownload(a, st, j, auth) == SparseDownload(b, st, j, auth)
  {
    SparseCloneAlike(a, b, j, auth, segs, st.clock);
    var c := SparseClone(a, st.clock, j, auth);
    if c.err.None? {
      CommitAlike(a, b, j, auth, segs, c.clock, c.store);
      CommitPart(a, st.clock, j, auth);
      var l := SparseCommit(a, c.clock, c.store, j, auth);
      var sel := Select(l.store.commits, l.store.trees, l.commit, j.subdir);
      if sel.Some? {
        SelectedInCone(l.store, a.remote, l.commit, segs, sel.value);
        BlobsAlike(a, b, j, auth, segs, l.clock, l.store, sel.value.files);
      }
    }
  }

  lemma BlobsAlike(
    a: Network, b: Network, j: Job, auth: Auth, segs: seq<string>, clock: nat, store: Store, files: seq<SparseEntry>)
    requires Alike(a, b, j, auth, segs) && j.subdir != ""
    requires OfCone(a.remote, BlobsOf(files) - store.blobs.Keys, segs)
    ensures FetchBlobs(a, clock, store, files, auth) == FetchBlobs(b, clock, store, files, auth)
  {
    var req := FetchReq(BlobsOf(files) - store.blobs.Keys, NoFilter, 0, auth);
    if req.wants != {} {
      assert MayFetch(a.remote, j, auth, segs, req);
    }
  }

  /**
   * A download with a credential asks the remote for nothing else, and nothing with another credential:
   * any two networks that answer those requests alike, the first of them honest, give the same result,
   * error, files and clock.
   */
  lemma AsksForNothingElse(a: Network, b: Network, st: State, j: Job, auth: Auth, segs: seq<string>)
    requires Honest(a, j.ctx) && Downloadable(a.remote, j, segs) && Alike(a, b, j, auth, segs)
    ensures CloneAndPrepare(a, st, j, auth) == CloneAndPrepare(b, st, j, auth)
  {
    if j.subdir == "" {
      WithoutSparseAlike(a, b, j, auth, segs, st);
    } else {
      SparseAlike(a, b, j, auth, segs, st);
      WithoutSparseAlike(a, b, j, auth, segs, State(SparseDownload(a, st, j, auth).st.clock, map[]));
    }
  }

  // Through the credential chain.

  lemma {:induction false} TriedStay(net: Network, j: Job, w: ChainWalk, sources: seq<Source>)
    ensures forall auth :: auth in w.tried ==> auth in WalkChain(net, j, w, sources).tried
    decreases sources
  {
    if sources != [] && w.end == Walking {
      TriedStay(net, j, WalkOne(net, j, w, sources[0]), sources[1..]);
    }
  }

  lemma {:induction false} WalksAlike(
    a: Network, b: Network, j: Job, segs: seq<string>, w: ChainWalk, sources: seq<Source>)
    requires Honest(a, j.ctx) && Downloadable(a.remote, j, segs)
    requires forall auth :: auth in WalkChain(a, j, w, sources).tried ==> Alike(a, b, j, auth, segs)
    ensures WalkChain(a, j, w, sources) == WalkChain(b, j, w, sources)
    decreases sources
  {
    if sources != [] && w.end == Walking {
      var v := WalkOne(a, j, w, sources[0]);
      TriedStay(a, j, v, sources[1..]);
      if sources[0].Offers? {
        var auth := sources[0].auth;
        assert auth in v.tried;
        AsksForNothingElse(a, b, if w.tried != [] then State(w.st.clock, map[]) else w.st, j, auth, segs);
      }
      assert v == WalkOne(b, j, w, sources[0]);
      WalksAlike(a, b, j, segs, v, sources[1..]);
    }
  }

  /**
   * A credential whose turn does not come is never sent: networks that answer alike the requests of
   * the credentials tried, and those made anonymously when the download was, give the same download.
   */
  lemma UntriedIsNeverSent(a: Network, b: Network, c: Candidate, st: State, j: Job, segs: seq<string>)
    requires c.net == a && Honest(a, j.ctx) && Downloadable(a.remote, j, segs)
    requires forall auth :: auth in WalkChain(a, j, Start(st), c.sources).tried ==> Alike(a, b, j, auth, segs)
    requires GitDownload(c, st, j).anonymous ==> Alike(a, b, j, Anonymous, segs)
    ensures GitDownload(c.(net := b), st, j) == GitDownload(c, st, j)
  {
    if c.guard.None? {
      WalksAlike(a, b, j, segs, Start(st), c.sources);
      var w := WalkChain(a, j, Start(st), c.sources);
      if Settle(a, j, w).anonymous {
        AsksForNothingElse(a, b, w.st, j, Anonymous, segs);
      }
    }
  }
}
