/**
 * What an error of cloneAndPrepare means: definitive verdicts are sound exactly where HEAD resolves
 * when it is needed and no submodule can answer for the repository.
 */
module Verdicts {
  import opened Options
  import opened Strings
  import opened GitObjects
  import opened Cone
  import opened Checkout
  import opened Refs
  import opened Remotes
  import opened Engine

  /** The context was done at some moment from start up to end. */
  ghost predicate DoneWithin(ctx: Context, start: nat, end: nat) {
    exists n :: start <= n <= end && ctx(n)
  }

  ghost predicate NoneOnRemote(remote: Remote, attempts: seq<Attempt>) {
    forall a :: a in attempts ==> Target(remote, a).None?
  }

  /**
   * The remote really lacks what was asked for: nothing it advertises leads to the full hash, no commit
   * starts with the short one, or it has no spelling of the name, or with no name no HEAD.
   */
  ghost predicate Lacks(remote: Remote, j: Job) {
    if LooksLikeCommitHash(j.ref) then
      if |j.ref| == 40 then !LedTo(remote, ToLower(j.ref)) else Matching(remote.store.commits, j.ref) == {}
    else NoneOnRemote(remote, CloneAttempts(j.ref))
  }

  ghost predicate Justified(remote: Remote, j: Job, start: nat, end: nat) {
    DoneWithin(j.ctx, start, end) || remote.refs == map[] || Lacks(remote, j)
  }

  predicate Unmarked(err: Err) {
    SparseUnsupported !in err && PinnedUnsupported !in err
  }

  /** An error fit to be returned: no marker in it, and definitive only with reason. */
  ghost predicate Sound(remote: Remote, j: Job, start: nat, end: nat, err: Err) {
    Unmarked(err) && (DefinitiveCloneError(err) ==> Justified(remote, j, start, end))
  }

  lemma Wider(ctx: Context, a: nat, b: nat, c: nat, d: nat)
    requires a <= b && c <= d && DoneWithin(ctx, b, c)
    ensures DoneWithin(ctx, a, d)
  {}

  // Clones.

  /** A list of named references, or the one unnamed attempt. */
  ghost predicate Uniform(attempts: seq<Attempt>) {
    |attempts| == 1 || forall a :: a in attempts ==> a.refName != ""
  }

  /** A clone may be told that there is nothing: by the remote, or by the repository of a submodule. */
  ghost predicate MayMiss(remote: Remote, a: Attempt, recurse: bool) {
    Target(remote, a).None? || (recurse && ListsSubmodule(remote, Target(remote, a).value))
  }

  ghost predicate AllMayMiss(remote: Remote, attempts: seq<Attempt>, recurse: bool) {
    forall a :: a in attempts ==> MayMiss(remote, a, recurse)
  }

  ghost predicate CloneErr(
    remote: Remote, ctx: Context, attempts: seq<Attempt>, recurse: bool, start: nat, end: nat, err: Err) {
    && Unmarked(err) && WantsRestricted !in err
    && (DefinitiveCloneError(err) ==> DoneWithin(ctx, start, end) || AllMayMiss(remote, attempts, recurse))
  }

  lemma {:induction false} TryErr(
    net: Network, ctx: Context, st: State, req: CloneReq, attempts: seq<Attempt>, bare: bool, last: Err)
    requires Honest(net, ctx) && Uniform(attempts) && Unmarked(last) && WantsRestricted !in last
    ensures var c := TryAttempts(net, st, req, attempts, bare, last);
            && st.clock <= c.st.clock
            && (c.result.AllMissing? ==>
                  && AllMayMiss(net.remote, attempts, req.recurse)
                  && Unmarked(c.result.err) && WantsRestricted !in c.result.err)
            && (c.result.NoRepo? ==>
                CloneErr(net.remote, ctx, attempts, req.recurse, st.clock, c.st.clock, c.result.err))
    decreases attempts
  {
    if attempts != [] {
      var a := attempts[0];
      var r := req.(attempt := a);
      var reply := net.clone(st.clock, r);
      assert HonestClone(net.remote, ctx, st.clock, r, reply);
      if reply.CloneFailed? {
        var err := ErrOf(reply.failure);
        assert forall b :: b in attempts <==> b == a || b in attempts[1..];
        if MissingRef(a, err) {
          assert MayMiss(net.remote, a, req.recurse);
          var after := State(st.clock + 1, Left(reply.left, st.clock));
          TryErr(net, ctx, after, req, attempts[1..], bare, err);
          var c := TryAttempts(net, after, req, attempts[1..], bare, err);
          if c.result.NoRepo? && DefinitiveCloneError(c.result.err) && DoneWithin(ctx, after.clock, c.st.clock) {
            Wider(ctx, st.clock, after.clock, c.st.clock, c.st.clock);
          }
        }
      }
    }
  }

  lemma CloneByAttemptsErr(net: Network, ctx: Context, st: State, req: CloneReq, attempts: seq<Attempt>, bare: bool)
    requires Honest(net, ctx) && Uniform(attempts)
    ensures var c := CloneByAttempts(net, st, req, attempts, bare);
            && st.clock <= c.st.clock && !c.result.AllMissing?
            && (c.result.NoRepo? ==>
                CloneErr(net.remote, ctx, attempts, req.recurse, st.clock, c.st.clock, c.result.err))
  {
    TryErr(net, ctx, st, req, attempts, bare, {});
  }

  lemma {:induction false} ClonedPart(
    net: Network, ctx: Context, st: State, req: CloneReq, attempts: seq<Attempt>, bare: bool, last: Err)
    requires Honest(net, ctx)
    ensures var c := TryAttempts(net, st, req, attempts, bare, last);
            c.result.Repo? ==>
              var store := c.result.store;
              && PartOf(store, net.remote.store) && AllLed(net.remote, store)
              && store.head.Some? && store.head.value in store.commits
    decreases attempts
  {
    if attempts != [] {
      var r := req.(attempt := attempts[0]);
      var reply := net.clone(st.clock, r);
      assert HonestClone(net.remote, ctx, st.clock, r, reply);
      if reply.CloneFailed? {
        ClonedPart(net, ctx, State(st.clock + 1, Left(reply.left, st.clock)), req, attempts[1..], bare,
          ErrOf(reply.failure));
      } else {
        ClonedLed(net.remote, r, reply.store);
      }
    }
  }

  /** The remote's references lead to every commit of the store. */
  ghost predicate AllLed(remote: Remote, store: Store) {
    forall h :: h in store.commits ==> LedTo(remote, h)
  }

  lemma ClonedLed(remote: Remote, req: CloneReq, store: Store)
    requires forall h :: h in store.commits ==> Asked(remote, req, h)
    ensures AllLed(remote, store)
  {
    forall h | h in store.commits ensures LedTo(remote, h) {
      AskedIsLed(remote, req, h);
    }
  }

  // Where verdicts can be relied on.

  /**
   * The full clone may take the hash for that commit: the clone can bring it, and no other match is
   * among the commits that it is sure to bring.
   */
  ghost predicate FullTakes(remote: Remote, j: Job, h: Hash) {
    && h in Matching(remote.store.commits, j.ref) && remote.head.Some?
    && (InDepth(remote, ResolveDepth(j), h) || Within(remote, remote.head.value, ResolveDepth(j), h))
    && forall g :: g in Matching(remote.store.commits, j.ref) && SureToCome(remote, j, g) ==> g == h
  }

  ghost predicate SureToCome(remote: Remote, j: Job, h: Hash) {
    remote.head == Some(h) || InDepth(remote, ResolveDepth(j), h)
  }

  /** A commit of the remote that a hash, or the start of one, can be checked out as. */
  ghost predicate MayBe(remote: Remote, j: Job, h: Hash) {
    if |j.ref| == 40 then h == ToLower(j.ref) && h in remote.store.commits else FullTakes(remote, j, h)
  }

  /**
   * For a hash HEAD resolves, which the clones of a hash ask for, and no submodule of the commit can
   * answer for the repository; a full hash that the remote lacks needs neither. For a name, it is on
   * the remote nowhere, or somewhere without submodules to answer for it.
   */
  ghost predicate Reliable(remote: Remote, j: Job) {
    || remote.refs == map[]
    || Lacks(remote, j)
    || if LooksLikeCommitHash(j.ref) then
         remote.head.Some? && (j.recurse ==> forall h :: MayBe(remote, j, h) ==> !ListsSubmodule(remote, h))
       else !AllMayMiss(remote, CloneAttempts(j.ref), j.recurse)
  }

  /** The clones of a stage; only the full clone of a name initialises submodules on the way. */
  ghost predicate ClonesOf(j: Job, attempts: seq<Attempt>, recurse: bool) {
    || (attempts == CloneAttempts(j.ref) && recurse == (j.recurse && !LooksLikeCommitHash(j.ref)))
    || (attempts == SparseAttempts(j) && !recurse)
  }

  /** When a stage may have been told that nothing is there, nothing is there. */
  lemma MissJustified(remote: Remote, j: Job, attempts: seq<Attempt>, recurse: bool, start: nat, end: nat)
    requires Reliable(remote, j) && ClonesOf(j, attempts, recurse) && AllMayMiss(remote, attempts, recurse)
    ensures Justified(remote, j, start, end)
  {
    if LooksLikeCommitHash(j.ref) {
      assert attempts[0].refName == "" && attempts[0] in attempts;
      assert MayMiss(remote, attempts[0], recurse);
    } else if remote.refs != map[] {
      assert forall a :: a in attempts && MayMiss(remote, a, recurse) ==> MayMiss(remote, a, j.recurse);
    }
  }

  // Fetches.

  ghost predicate FetchErr(remote: Remote, ctx: Context, clock: nat, wants: set<Hash>, err: Err) {
    && Unmarked(err) && RefNotFound !in err
    && (WantsRestricted in err ==> remote.restricted)
    && (WantsRestricted !in err && (EmptyRemote in err || NotOurRef in err) ==>
          Bare(remote) || AsksUnled(remote, wants))
    && (Canceled in err || DeadlineExceeded in err ==> ctx(clock))
  }

  lemma FetchObjectsErr(net: Network, ctx: Context, clock: nat, store: Store, req: FetchReq)
    requires Honest(net, ctx)
    ensures var f := FetchObjects(net, clock, store, req);
            && f.clock == clock + 1
            && (PartOf(store, net.remote.store) ==> PartOf(f.store, net.remote.store))
            && (f.err.Some? ==> FetchErr(net.remote, ctx, clock, req.wants, f.err.value))
  {
    assert HonestFetch(net.remote, ctx, clock, req, net.fetch(clock, req));
  }

  ghost predicate ByHashErr(remote: Remote, ctx: Context, start: nat, end: nat, h: Hash, err: Err) {
    && Unmarked(err)
    && (RefNotFound in err ==> WantsRestricted !in err)
    && (DefinitiveCloneError(err) ==>
          WantsRestricted in err || DoneWithin(ctx, start, end) || !LedTo(remote, h))
  }

  lemma ByHash(net: Network, ctx: Context, clock: nat, store: Store, h: Hash, filter: Filter, depth: nat, auth: Auth)
    requires Honest(net, ctx)
    ensures var f := FetchCommitByHash(net, clock, store, h, filter, depth, auth);
            && f.clock == clock + 1
            && (PartOf(store, net.remote.store) ==> PartOf(f.store, net.remote.store))
            && (f.err.Some? ==> ByHashErr(net.remote, ctx, clock, f.clock, h, f.err.value))
  {
    FetchObjectsErr(net, ctx, clock, store, FetchReq({h}, filter, depth, auth));
  }

  /**
   * A refusal that becomes "reference not found": what it takes, and that nothing advertised then
   * leads to the commit.
   */
  lemma RefusalMeansMissing(
    net: Network, ctx: Context, clock: nat, store: Store, h: Hash, filter: Filter, depth: nat, auth: Auth)
    requires Honest(net, ctx)
    ensures var err := FetchCommitByHash(net, clock, store, h, filter, depth, auth).err;
            var reply := net.fetch(clock, FetchReq({h}, filter, depth, auth));
            && (err.Some? && RefNotFound in err.value ==> !LedTo(net.remote, h))
            && (err == Some({RefNotFound}) <==>
                  || reply == HandshakeFailed(Some(EmptyRemote))
                  || (reply.FetchFailed? && reply.failure in {Some(EmptyRemote), Some(NotOurRef)}
                      && !net.remote.restricted))
  {
    var req := FetchReq({h}, filter, depth, auth);
    assert HonestFetch(net.remote, ctx, clock, req, net.fetch(clock, req));
  }

  lemma EnsureErr(net: Network, ctx: Context, clock: nat, store: Store, h: Hash, auth: Auth)
    requires Honest(net, ctx)
    ensures var f := EnsureCommitTrees(net, clock, store, h, auth);
            && clock <= f.clock
            && (f.err.Some? ==> ByHashErr(net.remote, ctx, clock, f.clock, h, f.err.value))
  {
    ByHash(net, ctx, clock, store, h, BlobNone, 1, auth);
  }

  // The stages.

  /** An error of the sparse stage either sends the download on to the next stage or is sound. */
  ghost predicate SparseErr(remote: Remote, j: Job, start: nat, end: nat, err: Err) {
    PinnedUnsupported !in err && (SparseUnsupported in err || Sound(remote, j, start, end, err))
  }

  lemma FoundIsLed(net: Network, store: Store, ref: string)
    requires AllLed(net.remote, store) && ResolveHash(store.commits, ref).Some?
    ensures LedTo(net.remote, ResolveHash(store.commits, ref).value)
  {}

  lemma GraphLed(net: Network, ctx: Context, clock: nat, store: Store, auth: Auth)
    requires Honest(net, ctx) && AllLed(net.remote, store) && store.head.Some? && LedTo(net.remote, store.head.value)
    ensures AllLed(net.remote, FetchObjects(net, clock, store, FetchReq({store.head.value}, TreeNone, 0, auth)).store)
  {
    var req := FetchReq({store.head.value}, TreeNone, 0, auth);
    var reply := net.fetch(clock, req);
    assert HonestFetch(net.remote, ctx, clock, req, reply);
    if reply.Fetched? {
      forall h | h in reply.got.commits ensures LedTo(net.remote, h) {
        assert Wanted(net.remote, req.wants, h);
        LedOn(net.remote, store.head.value, h);
      }
    }
  }

  lemma EnsuredErr(net: Network, clock: nat, store: Store, j: Job, h: Hash, auth: Auth, start: nat)
    requires Honest(net, j.ctx) && start <= clock && PinnedOrLed(net.remote, j, h)
    ensures var f := EnsureCommitTrees(net, clock, store, h, auth);
            && clock <= f.clock
            && (f.err.Some? ==> MarkedErr(net.remote, j, start, f.clock, f.err.value))
  {
    EnsureErr(net, j.ctx, clock, store, h, auth);
    var f := EnsureCommitTrees(net, clock, store, h, auth);
    if DoneWithin(j.ctx, clock, f.clock) {
      Wider(j.ctx, start, clock, f.clock, f.clock);
    }
  }

  ghost predicate PinnedOrLed(remote: Remote, j: Job, h: Hash) {
    LedTo(remote, h) || (PinnedEligible(j) && h == ToLower(j.ref))
  }

  /** Sound once sparseCommit has marked the refusals of a restricted server. */
  ghost predicate MarkedErr(remote: Remote, j: Job, start: nat, end: nat, err: Err) {
    Unmarked(err) && (WantsRestricted in err || Sound(remote, j, start, end, err))
  }

  lemma ResolvePinnedErr(net: Network, clock: nat, store: Store, j: Job, auth: Auth, start: nat)
    requires Honest(net, j.ctx) && start <= clock && LooksLikeCommitHash(j.ref)
    requires AllLed(net.remote, store) && (store.head.Some? ==> store.head.value in store.commits)
    ensures var l := ResolvePinnedCommit(net, clock, store, j, auth);
            && clock <= l.clock
            && (l.err.Some? ==> MarkedErr(net.remote, j, start, l.clock, l.err.value))
  {
    var here := ResolveHash(store.commits, j.ref);
    if here.Some? {
      FoundIsLed(net, store, j.ref);
      EnsuredErr(net, clock, store, j, here.value, auth, start);
    } else if |j.ref| == 40 {
      EnsuredErr(net, clock, store, j, ToLower(j.ref), auth, start);
    } else if store.head.Some? {
      var req := FetchReq({store.head.value}, TreeNone, 0, auth);
      FetchObjectsErr(net, j.ctx, clock, store, req);
      GraphLed(net, j.ctx, clock, store, auth);
      var graph := FetchObjects(net, clock, store, req);
      if graph.err.None? && ResolveHash(graph.store.commits, j.ref).Some? {
        FoundIsLed(net, graph.store, j.ref);
        EnsuredErr(net, graph.clock, graph.store, j, ResolveHash(graph.store.commits, j.ref).value, auth, start);
      }
    }
  }

  lemma SparseCloneErr(net: Network, clock: nat, j: Job, auth: Auth)
    requires Honest(net, j.ctx) && Reliable(net.remote, j)
    ensures var c := SparseClone(net, clock, j, auth);
            && clock <= c.clock
            && (c.err.Some? ==> SparseErr(net.remote, j, clock, c.clock, c.err.value))
            && (c.err.None? ==>
                  AllLed(net.remote, c.store) && c.store.head.Some? && c.store.head.value in c.store.commits)
  {
    var attempts := SparseAttempts(j);
    CloneByAttemptsErr(net, j.ctx, State(clock, map[]), SparseReq(j, auth), attempts, true);
    ClonedPart(net, j.ctx, State(clock, map[]), SparseReq(j, auth), attempts, true, {});
    var c := CloneByAttempts(net, State(clock, map[]), SparseReq(j, auth), attempts, true);
    if AllMayMiss(net.remote, attempts, false) {
      MissJustified(net.remote, j, attempts, false, clock, c.st.clock);
    }
  }

  lemma SparseStageErr(net: Network, st: State, j: Job, auth: Auth)
    requires Honest(net, j.ctx) && Reliable(net.remote, j)
    ensures var s := SparseDownload(net, st, j, auth);
            && st.clock <= s.st.clock
            && (s.err.Some? ==> SparseErr(net.remote, j, st.clock, s.st.clock, s.err.value))
  {
    SparseCloneErr(net, st.clock, j, auth);
    var c := SparseClone(net, st.clock, j, auth);
    if c.err.None? {
      SparseCommitErr(net, c.clock, c.store, j, auth, st.clock);
      var l := SparseCommit(net, c.clock, c.store, j, auth);
      var sel := Select(l.store.commits, l.store.trees, l.commit, j.subdir);
      if l.err.None? && sel.Some? {
        SparseWriteErr(net, State(l.clock, st.files), j, l.store, sel.value.files, auth, st.clock);
      }
    }
  }

  lemma SparseCommitErr(net: Network, clock: nat, store: Store, j: Job, auth: Auth, start: nat)
    requires Honest(net, j.ctx) && start <= clock
    requires AllLed(net.remote, store) && (store.head.Some? ==> store.head.value in store.commits)
    ensures var l := SparseCommit(net, clock, store, j, auth);
            && clock <= l.clock
            && (l.err.Some? ==> SparseErr(net.remote, j, start, l.clock, l.err.value))
  {
    if LooksLikeCommitHash(j.ref) {
      ResolvePinnedErr(net, clock, store, j, auth, start);
    }
  }

  lemma SparseWriteErr(net: Network, st: State, j: Job, store: Store, files: seq<SparseEntry>, auth: Auth, stamp: nat)
    requires Honest(net, j.ctx)
    ensures var s := SparseWrite(net, st, j, store, files, auth, stamp);
            && st.clock <= s.st.clock
            && (s.err.Some? ==>
                  PinnedUnsupported !in s.err.value && (SparseUnsupported in s.err.value || s.err.value == {}))
  {
    FetchObjectsErr(net, j.ctx, st.clock, store, FetchReq(BlobsOf(files) - store.blobs.Keys, NoFilter, 0, auth));
  }

  lemma PinnedStageErr(net: Network, clock: nat, j: Job, auth: Auth)
    requires Honest(net, j.ctx) && PinnedEligible(j)
    ensures var p := PinnedCommitClone(net, clock, j, auth);
            && clock < p.clock && (p.err.Some? ==> SparseUnsupported !in p.err.value)
            && (p.err.Some? && PinnedUnsupported !in p.err.value ==> Sound(net.remote, j, clock, p.clock, p.err.value))
  {
    var depth := if j.depth > 0 || j.configDepth > 0 then ResolveDepth(j) else 1;
    var h := ToLower(j.ref);
    var req := FetchReq({h}, NoFilter, depth, auth);
    ByHash(net, j.ctx, clock, NO_OBJECTS, h, NoFilter, depth, auth);
    assert HonestFetch(net.remote, j.ctx, clock, req, net.fetch(clock, req));
  }

  lemma FullStageErr(net: Network, st: State, j: Job, auth: Auth, start: nat)
    requires Honest(net, j.ctx) && Reliable(net.remote, j) && start <= st.clock
    ensures var s := FullClone(net, st, j, auth);
            s.err.Some? ==> Sound(net.remote, j, start, s.st.clock, s.err.value)
  {
    var attempts, req := CloneAttempts(j.ref), FullReq(j, auth);
    CloneByAttemptsErr(net, j.ctx, st, req, attempts, false);
    var c := CloneByAttempts(net, st, req, attempts, false);
    if c.result.Repo? {
      ClonedPart(net, j.ctx, st, req, attempts, false, {});
      FullFinds(net, st, j, auth);
      PreparedErr(net, c.st, j, c.result.store, c.st.files.Keys, c.stamp, start);
    } else {
      CloneErrSound(net.remote, j, attempts, req.recurse, start, st.clock, c.st.clock, c.result.err);
    }
  }

  lemma CloneErrSound(
    remote: Remote, j: Job, attempts: seq<Attempt>, recurse: bool, start: nat, from: nat, end: nat, err: Err)
    requires Reliable(remote, j) && ClonesOf(j, attempts, recurse) && start <= from
    requires CloneErr(remote, j.ctx, attempts, recurse, from, end, err)
    ensures Sound(remote, j, start, end, err)
  {
    if AllMayMiss(remote, attempts, recurse) {
      MissJustified(remote, j, attempts, recurse, start, end);
    } else if DefinitiveCloneError(err) {
      Wider(j.ctx, start, from, end, end);
    }
  }

  /** Any interval that holds a reason keeps it when widened. */
  lemma SoundWider(remote: Remote, j: Job, a: nat, b: nat, c: nat, d: nat, err: Err)
    requires a <= b && c <= d && Sound(remote, j, b, c, err)
    ensures Sound(remote, j, a, d, err)
  {}

  lemma WithoutSparseErr(net: Network, st: State, j: Job, auth: Auth, start: nat)
    requires Honest(net, j.ctx) && Reliable(net.remote, j) && start <= st.clock
    ensures var s := WithoutSparse(net, st, j, auth);
            s.err.Some? ==> Sound(net.remote, j, start, s.st.clock, s.err.value)
  {
    if !PinnedEligible(j) {
      FullStageErr(net, st, j, auth, start);
    } else {
      var p := PinnedCommitClone(net, st.clock, j, auth);
      PinnedStageErr(net, st.clock, j, auth);
      if p.err.None? {
        PinnedPart(net, st.clock, j, auth);
        PreparedErr(net, State(p.clock, st.files), j, p.store, {}, st.clock, start);
      } else if PinnedUnsupported in p.err.value {
        FullStageErr(net, State(p.clock, map[]), j, auth, start);
      } else {
        SoundWider(net.remote, j, start, st.clock, p.clock, p.clock, p.err.value);
      }
    }
  }

  lemma PinnedPart(net: Network, clock: nat, j: Job, auth: Auth)
    requires Honest(net, j.ctx)
    ensures PartOf(PinnedCommitClone(net, clock, j, auth).store, net.remote.store)
  {
    var depth := if j.depth > 0 || j.configDepth > 0 then ResolveDepth(j) else 1;
    ByHash(net, j.ctx, clock, NO_OBJECTS, ToLower(j.ref), NoFilter, depth, auth);
  }

  /** A hash is checked out as a commit that it may be. */
  ghost predicate Resolves(remote: Remote, j: Job, store: Store) {
    LooksLikeCommitHash(j.ref) && ResolveHash(store.commits, j.ref).Some? ==>
      MayBe(remote, j, ResolveHash(store.commits, j.ref).value)
  }

  lemma FullFinds(net: Network, st: State, j: Job, auth: Auth)
    requires Honest(net, j.ctx)
    ensures var c := CloneByAttempts(net, st, FullReq(j, auth), CloneAttempts(j.ref), false);
            c.result.Repo? ==> Resolves(net.remote, j, c.result.store)
  {
    if LooksLikeCommitHash(j.ref) {
      var req := FullReq(j, auth);
      assert CloneAttempts(j.ref) == [req.attempt] && req.(attempt := req.attempt) == req;
      var reply := net.clone(st.clock, req);
      assert HonestClone(net.remote, j.ctx, st.clock, req, reply);
      if reply.CloneFailed? {
        assert TryAttempts(net, st, req, [req.attempt], false, {}).result.Repo? == false;
      } else if ResolveHash(reply.store.commits, j.ref).Some? {
        FoundAmong(net.remote, j, req, reply.store, ResolveHash(reply.store.commits, j.ref).value);
      }
    }
  }

  lemma FoundAmong(remote: Remote, j: Job, req: CloneReq, store: Store, h: Hash)
    requires LooksLikeCommitHash(j.ref) && StandsFor(store.commits, j.ref, h) && PartOf(store, remote.store)
    requires req.attempt == Attempt("", false) && req.depth == ResolveDepth(j) && remote.head.Some?
    requires remote.head.value in store.commits && forall g :: g in store.commits ==> Asked(remote, req, g)
    requires forall g :: InDepth(remote, req.depth, g) ==> g in store.commits
    ensures MayBe(remote, j, h)
  {
    if |j.ref| != 40 {
      assert h in Matching(store.commits, j.ref);
      forall g | g in Matching(remote.store.commits, j.ref) && SureToCome(remote, j, g) ensures g == h {
        assert g in Matching(store.commits, j.ref);
      }
    }
  }

  /** After a clone only the submodules of the commit checked out have a say. */
  lemma PreparedErr(net: Network, st: State, j: Job, store: Store, tracked: set<string>, stamp: nat, start: nat)
    requires Honest(net, j.ctx) && Reliable(net.remote, j) && PartOf(store, net.remote.store) && start <= st.clock
    requires Resolves(net.remote, j, store)
    ensures var s := Prepared(net, st, j, store, tracked, stamp);
            s.err.Some? ==> Sound(net.remote, j, start, s.st.clock, s.err.value)
  {
    var h := ResolveHash(store.commits, j.ref);
    if h.Some? {
      assert HonestSubmodules(net.remote, j.ctx, st.clock, h.value, net.submodules(st.clock, h.value));
    }
  }

  /**
   * Definitive verdicts are sound. Wherever verdicts can be relied on, whenever cloneAndPrepare fails
   * with an error no retry is made for, the context was done meanwhile, the repository is empty, or
   * it lacks the commit or every spelling of the reference; and neither stage's marker is ever in
   * what it returns.
   */
  lemma DefinitiveVerdictsSound(net: Network, st: State, j: Job, auth: Auth)
    requires Honest(net, j.ctx) && Reliable(net.remote, j)
    ensures var s := CloneAndPrepare(net, st, j, auth);
            s.err.Some? ==> Sound(net.remote, j, st.clock, s.st.clock, s.err.value)
  {
    SparseStageErr(net, st, j, auth);
    var sparse := SparseDownload(net, st, j, auth);
    WithoutSparseErr(net, State(sparse.st.clock, map[]), j, auth, st.clock);
    WithoutSparseErr(net, st, j, auth, st.clock);
  }

  // Elsewhere they cannot.

  /** No honest network over this remote ever draws a definitive error without reason. */
  ghost predicate VerdictsSound(remote: Remote, j: Job) {
    forall net: Network, st: State, auth: Auth :: net.remote == remote && Honest(net, j.ctx) ==>
      var s := CloneAndPrepare(net, st, j, auth);
      s.err.Some? && DefinitiveCloneError(s.err.value) ==> Justified(remote, j, st.clock, s.st.clock)
  }

  /**
   * A network that reports "reference not found" wherever honesty allows, completes no clone, and
   * serves at most one commit, to one credential.
   */
  ghost predicate Grudging(net: Network, served: Option<Hash>, to: Auth) {
    && (forall n: nat, req: CloneReq ::
          net.clone(n, req) == CloneFailed(if MayMiss(net.remote, req.attempt, req.recurse) then Some(RefNotFound)
            else None, map[]))
    && (forall n: nat, req: FetchReq :: net.fetch(n, req) == Serving(net.remote, served, to, req))
    && (forall n: nat, h: Hash ::
          net.submodules(n, h) == if ListsSubmodule(net.remote, h) then Some(Some(RefNotFound)) else None)
  }

  /** That commit alone, with all trees and blobs. */
  ghost function Serving(remote: Remote, served: Option<Hash>, to: Auth, req: FetchReq): FetchReply {
    if req.filter == NoFilter && req.auth == to && served.Some? && req.wants == {served.value}
      && served.value in remote.store.commits then
      Fetched(remote.store.(commits := map[served.value := remote.store.commits[served.value]], head := None))
    else FetchFailed(None)
  }

  lemma GrudgingNetwork(remote: Remote, ctx: Context, served: Option<Hash>, to: Auth) returns (net: Network)
    requires served.Some? ==> to in remote.accepted
    ensures net.remote == remote && Grudging(net, served, to) && Honest(net, ctx)
  {
    net := Network(remote,
      (n: nat, req: CloneReq) => CloneFailed(if MayMiss(remote, req.attempt, req.recurse) then Some(RefNotFound)
        else None, map[]),
      (n: nat, req: FetchReq) => Serving(remote, served, to, req),
      (n: nat, h: Hash) => if ListsSubmodule(remote, h) then Some(Some(RefNotFound)) else None);
    forall n, req ensures HonestFetch(remote, ctx, n, req, net.fetch(n, req)) {
      if net.fetch(n, req).Fetched? {
        TipWithin(remote, 0, served.value);
        assert Wanted(remote, req.wants, served.value);
      }
    }
  }

  lemma SoundRemote(remote: Remote, j: Job)
    requires Reliable(remote, j)
    ensures VerdictsSound(remote, j)
  {
    forall net: Network, st: State, auth: Auth | net.remote == remote && Honest(net, j.ctx)
      ensures var s := CloneAndPrepare(net, st, j, auth);
              s.err.Some? ==> Sound(remote, j, st.clock, s.st.clock, s.err.value)
    {
      DefinitiveVerdictsSound(net, st, j, auth);
    }
  }

  /** Every clone for the request fails, with "reference not found" wherever honesty allows. */
  ghost predicate RefusesClones(net: Network, req: CloneReq) {
    forall n: nat, a: Attempt ::
      net.clone(n, req.(attempt := a)) ==
        CloneFailed(if MayMiss(net.remote, a, req.recurse) then Some(RefNotFound) else None, map[])
  }

  lemma {:induction false} RefusedAttempts(
    net: Network, st: State, req: CloneReq, attempts: seq<Attempt>, bare: bool, last: Err)
    requires RefusesClones(net, req) && (attempts == [] ==> last == {RefNotFound})
    ensures var r := TryAttempts(net, st, req, attempts, bare, last).result;
            if AllMayMiss(net.remote, attempts, req.recurse) then r == AllMissing({RefNotFound}) else r == NoRepo({})
    decreases attempts
  {
    if attempts != [] {
      var a := attempts[0];
      assert forall b :: b in attempts <==> b == a || b in attempts[1..];
      var reply := net.clone(st.clock, req.(attempt := a));
      if MayMiss(net.remote, a, req.recurse) {
        RefusedAttempts(net, State(st.clock + 1, Left(map[], st.clock)), req, attempts[1..], bare, {RefNotFound});
      }
    }
  }

  /** What a grudging network makes of the two stages that clone. */
  lemma GrudgingClones(net: Network, st: State, j: Job, auth: Auth, served: Option<Hash>, to: Auth)
    requires Grudging(net, served, to)
    ensures AllMayMiss(net.remote, CloneAttempts(j.ref), FullReq(j, auth).recurse) ==>
              FullClone(net, st, j, auth).err == Some({RefNotFound})
    ensures var err := SparseDownload(net, st, j, auth).err;
            err == if AllMayMiss(net.remote, SparseAttempts(j), false) then Some({RefNotFound})
              else Some({SparseUnsupported})
  {
    RefusedAttempts(net, st, FullReq(j, auth), CloneAttempts(j.ref), false, {});
    RefusedAttempts(net, State(st.clock, map[]), SparseReq(j, auth), SparseAttempts(j), true, {});
    assert {} + {SparseUnsupported} == {SparseUnsupported};
  }

  /**
   * For a full hash of a commit the remote has: no verdict on it is ever wrong exactly when HEAD
   * resolves and no submodule of the commit is initialised, unless the remote has no references or
   * nothing that it advertises leads to the commit.
   */
  lemma HashVerdictsExact(remote: Remote, j: Job, auth: Auth)
    requires PinnedEligible(j) && Whole(remote.store, ToLower(j.ref)) && auth in remote.accepted
    requires forall n :: !j.ctx(n)
    ensures VerdictsSound(remote, j) <==>
            || remote.refs == map[]
            || !LedTo(remote, ToLower(j.ref))
            || (remote.head.Some? && !(j.recurse && ListsSubmodule(remote, ToLower(j.ref))))
  {
    var h, st := ToLower(j.ref), State(0, map[]);
    if Reliable(remote, j) {
      SoundRemote(remote, j);
    } else if remote.head.None? {
      var net := GrudgingNetwork(remote, j.ctx, None, auth);
      NoHeadMisleads(net, st, j, auth, auth);
      assert net.remote == remote;
    } else {
      var net := GrudgingNetwork(remote, j.ctx, Some(h), auth);
      SubmoduleMisleads(net, st, j, auth);
      assert net.remote == remote;
    }
  }

  lemma NoHeadMisleads(net: Network, st: State, j: Job, auth: Auth, to: Auth)
    requires Grudging(net, None, to) && PinnedEligible(j) && net.remote.head.None? && !j.ctx(st.clock + 1)
    ensures CloneAndPrepare(net, st, j, auth).err == Some({RefNotFound})
  {
    GrudgingClones(net, st, j, auth, None, to);
    var p := PinnedCommitClone(net, st.clock, j, auth);
    assert p.clock == st.clock + 1 && p.err.Some? && PinnedUnsupported in p.err.value;
    GrudgingClones(net, State(p.clock, map[]), j, auth, None, to);
  }

  lemma SubmoduleMisleads(net: Network, st: State, j: Job, auth: Auth)
    requires Grudging(net, Some(ToLower(j.ref)), auth) && PinnedEligible(j) && net.remote.head.Some?
    requires j.recurse && ListsSubmodule(net.remote, ToLower(j.ref)) && Whole(net.remote.store, ToLower(j.ref))
    ensures CloneAndPrepare(net, st, j, auth).err == Some({RefNotFound})
  {
    GrudgingClones(net, st, j, auth, Some(ToLower(j.ref)), auth);
    assert !MayMiss(net.remote, SparseAttempts(j)[0], false);
    SubmoduleMisleadsPinned(net, st, j, auth);
    SubmoduleMisleadsPinned(net, State(SparseDownload(net, st, j, auth).st.clock, map[]), j, auth);
  }

  lemma SubmoduleMisleadsPinned(net: Network, st: State, j: Job, auth: Auth)
    requires Grudging(net, Some(ToLower(j.ref)), auth) && PinnedEligible(j)
    requires j.recurse && ListsSubmodule(net.remote, ToLower(j.ref)) && Whole(net.remote.store, ToLower(j.ref))
    ensures WithoutSparse(net, st, j, auth).err == Some({RefNotFound})
  {
    var h := ToLower(j.ref);
    var p := PinnedCommitClone(net, st.clock, j, auth);
    assert p.err.None? && h in p.store.commits && p.store.commits[h] == net.remote.store.commits[h];
    assert StandsFor(p.store.commits, j.ref, h);
    var stage := CheckoutCommit(net, State(p.clock, st.files), j, p.store, {}, st.clock);
    assert stage.err == Some({RefNotFound});
  }

  /**
   * For a name, or none: no verdict on it is ever wrong exactly when one of its spellings is on the
   * remote without submodules to be initialised, or none of them is there at all.
   */
  lemma NamedVerdictsExact(remote: Remote, j: Job)
    requires !LooksLikeCommitHash(j.ref) && forall n :: !j.ctx(n)
    ensures VerdictsSound(remote, j) <==>
            || remote.refs == map[]
            || NoneOnRemote(remote, CloneAttempts(j.ref))
            || exists a :: a in CloneAttempts(j.ref) && !MayMiss(remote, a, j.recurse)
  {
    if Reliable(remote, j) {
      SoundRemote(remote, j);
    } else {
      var net := GrudgingNetwork(remote, j.ctx, None, Anonymous);
      var st := State(0, map[]);
      GrudgingClones(net, st, j, Anonymous, None, Anonymous);
      var sparse := SparseDownload(net, st, j, Anonymous);
      GrudgingClones(net, State(sparse.st.clock, map[]), j, Anonymous, None, Anonymous);
      assert CloneAndPrepare(net, st, j, Anonymous).err == Some({RefNotFound});
      assert net.remote == remote;
    }
  }
}
