/** The two markers by which a stage steps aside are never part of what a download of one remote returns. */
module Markers {
  import opened Options
  import opened Strings
  import opened GitObjects
  import opened Cone
  import opened Checkout
  import opened Refs
  import opened Remotes
  import opened Engine
  import opened Verdicts

  predicate CleanFailure(failure: Failure) {
    failure !in {Some(SparseUnsupported), Some(PinnedUnsupported)}
  }

  predicate CleanClone(reply: CloneReply) {
    reply.CloneFailed? ==> CleanFailure(reply.failure)
  }

  predicate CleanFetch(reply: FetchReply) {
    match reply
    case Fetched(_) => true
    case HandshakeFailed(failure) => CleanFailure(failure)
    case FetchFailed(failure) => CleanFailure(failure)
  }

  /** No failure off the wire carries a marker: they are the client's own. Nothing else is asked of the remote. */
  ghost predicate CleanWire(net: Network) {
    && (forall n: nat, req: CloneReq :: CleanClone(net.clone(n, req)))
    && (forall n: nat, req: FetchReq :: CleanFetch(net.fetch(n, req)))
    && (forall n: nat, h: Hash :: net.submodules(n, h).Some? ==> CleanFailure(net.submodules(n, h).value))
  }

  predicate NoMarker(err: Option<Err>) {
    err.Some? ==> Unmarked(err.value)
  }

  lemma {:induction false} AttemptsUnmarked(
    net: Network, st: State, req: CloneReq, attempts: seq<Attempt>, bare: bool, last: Err)
    requires CleanWire(net) && Unmarked(last)
    ensures match TryAttempts(net, st, req, attempts, bare, last).result
            case Repo(_) => true
            case NoRepo(err) => Unmarked(err)
            case AllMissing(err) => Unmarked(err)
    decreases attempts
  {
    if attempts != [] {
      var reply := net.clone(st.clock, req.(attempt := attempts[0]));
      assert CleanClone(reply);
      if reply.CloneFailed? {
        AttemptsUnmarked(net, State(st.clock + 1, Left(reply.left, st.clock)), req, attempts[1..], bare,
          ErrOf(reply.failure));
      }
    }
  }

  lemma FetchUnmarked(net: Network, clock: nat, store: Store, req: FetchReq)
    requires CleanWire(net)
    ensures NoMarker(FetchObjects(net, clock, store, req).err)
  {
    assert CleanFetch(net.fetch(clock, req));
  }

  lemma CommitUnmarked(net: Network, clock: nat, store: Store, h: Hash, filter: Filter, depth: nat, auth: Auth)
    requires CleanWire(net)
    ensures NoMarker(FetchCommitByHash(net, clock, store, h, filter, depth, auth).err)
  {
    FetchUnmarked(net, clock, store, FetchReq({h}, filter, depth, auth));
  }

  lemma PinnedLocated(net: Network, clock: nat, store: Store, j: Job, auth: Auth)
    requires CleanWire(net)
    ensures NoMarker(ResolvePinnedCommit(net, clock, store, j, auth).err)
  {
    forall c: nat, s: Store, h: Hash ensures NoMarker(EnsureCommitTrees(net, c, s, h, auth).err) {
      CommitUnmarked(net, c, s, h, BlobNone, 1, auth);
    }
    if store.head.Some? {
      FetchUnmarked(net, clock, store, FetchReq({store.head.value}, TreeNone, 0, auth));
    }
  }

  /** An error of the sparse stage that does not carry its own marker carries none. */
  lemma SparseUnmarked(net: Network, st: State, j: Job, auth: Auth)
    requires CleanWire(net)
    ensures var err := SparseDownload(net, st, j, auth).err;
            err.Some? ==> PinnedUnsupported !in err.value
  {
    AttemptsUnmarked(net, State(st.clock, map[]), SparseReq(j, auth), SparseAttempts(j), true, {});
    var c := SparseClone(net, st.clock, j, auth);
    if c.err.None? {
      PinnedLocated(net, c.clock, c.store, j, auth);
      var l := SparseCommit(net, c.clock, c.store, j, auth);
      var sel := Select(l.store.commits, l.store.trees, l.commit, j.subdir);
      if l.err.None? && sel.Some? {
        SparseWriteUnmarked(net, State(l.clock, st.files), j, l.store, sel.value.files, auth, st.clock);
      }
    }
  }

  lemma SparseWriteUnmarked(
    net: Network, st: State, j: Job, store: Store, files: seq<SparseEntry>, auth: Auth, stamp: nat)
    requires CleanWire(net)
    ensures var err := SparseWrite(net, st, j, store, files, auth, stamp).err;
            err.Some? ==> PinnedUnsupported !in err.value
  {
    FetchUnmarked(net, st.clock, store, FetchReq(BlobsOf(files) - store.blobs.Keys, NoFilter, 0, auth));
  }

  lemma PreparedUnmarked(net: Network, st: State, j: Job, store: Store, tracked: set<string>, stamp: nat)
    requires CleanWire(net)
    ensures NoMarker(Prepared(net, st, j, store, tracked, stamp).err)
  {}

  lemma FullUnmarked(net: Network, st: State, j: Job, auth: Auth)
    requires CleanWire(net)
    ensures NoMarker(FullClone(net, st, j, auth).err)
  {
    AttemptsUnmarked(net, st, FullReq(j, auth), CloneAttempts(j.ref), false, {});
    var c := CloneByAttempts(net, st, FullReq(j, auth), CloneAttempts(j.ref), false);
    if c.result.Repo? {
      PreparedUnmarked(net, c.st, j, c.result.store, c.st.files.Keys, c.stamp);
    }
  }

  lemma WithoutSparseUnmarked(net: Network, st: State, j: Job, auth: Auth)
    requires CleanWire(net)
    ensures NoMarker(WithoutSparse(net, st, j, auth).err)
  {
    if !PinnedEligible(j) {
      FullUnmarked(net, st, j, auth);
    } else {
      var depth := if j.depth > 0 || j.configDepth > 0 then ResolveDepth(j) else 1;
      CommitUnmarked(net, st.clock, NO_OBJECTS, ToLower(j.ref), NoFilter, depth, auth);
      var p := PinnedCommitClone(net, st.clock, j, auth);
      if p.err.None? {
        PreparedUnmarked(net, State(p.clock, st.files), j, p.store, {}, st.clock);
      } else {
        FullUnmarked(net, State(p.clock, map[]), j, auth);
      }
    }
  }

  /**
   * The markers stay inside: whatever the remote does, honest or not, and with or without
   * submodules, no error of cloneAndPrepare carries either of them.
   */
  lemma MarkersNeverEscape(net: Network, st: State, j: Job, auth: Auth)
    requires CleanWire(net)
    ensures NoMarker(CloneAndPrepare(net, st, j, auth).err)
  {
    SparseUnmarked(net, st, j, auth);
    WithoutSparseUnmarked(net, State(SparseDownload(net, st, j, auth).st.clock, map[]), j, auth);
    WithoutSparseUnmarked(net, st, j, auth);
  }
}
