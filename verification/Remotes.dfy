/**
 * A git remote as data: what it holds, what it may answer, and which answers are honest. The
 * replies are functions of the moment and of the request, so that one network stands for one
 * resolution of everything the client cannot foresee.
 */
module Remotes {
  import opened Options
  import opened GitObjects
  import opened Checkout
  import opened Refs

  /** The sentinel errors the code tests for. */
  datatype Tag =
    | RefNotFound | EmptyRemote | Canceled | DeadlineExceeded | AuthRequired | AuthorizationFailed
    | NotOurRef | ObjectNotFound | WantsRestricted | SparseUnsupported | PinnedUnsupported

  /** An error as errors.Is sees it: the sentinels it wraps. Wrapping and joining are union. */
  type Err = set<Tag>

  predicate DefinitiveCloneError(err: Err) {
    RefNotFound in err || EmptyRemote in err || Canceled in err || DeadlineExceeded in err
  }

  predicate AuthFailure(err: Err) {
    AuthRequired in err || AuthorizationFailed in err
  }

  predicate CommitMissingOnRemote(err: Err) {
    WantsRestricted !in err && (EmptyRemote in err || NotOurRef in err)
  }

  predicate MissingRef(attempt: Attempt, err: Err) {
    RefNotFound in err || (attempt.refName != "" && EmptyRemote in err)
  }

  datatype Auth = Anonymous | Credential(username: string, password: string)

  datatype Filter = NoFilter | BlobNone | TreeNone

  datatype CloneReq = CloneReq(attempt: Attempt, depth: nat, filtered: bool, allTags: bool, recurse: bool, auth: Auth)
  datatype FetchReq = FetchReq(wants: set<Hash>, filter: Filter, depth: nat, auth: Auth)

  /** A failure on the wire wraps one sentinel, or none of interest. */
  type Failure = Option<Tag>

  function ErrOf(failure: Failure): Err {
    if failure.Some? then {failure.value} else {}
  }

  /** A failed clone may leave anything behind. */
  datatype CloneReply = Cloned(store: Store) | CloneFailed(failure: Failure, left: map<string, Bytes>)
  datatype FetchReply = Fetched(got: Store) | HandshakeFailed(failure: Failure) | FetchFailed(failure: Failure)

  /** restricted: only advertised commits are served by hash. */
  datatype Remote = Remote(
    refs: map<string, Hash>, head: Option<Hash>, store: Store, restricted: bool, accepted: set<Auth>)

  datatype Network = Network(
    remote: Remote,
    clone: (nat, CloneReq) -> CloneReply,
    fetch: (nat, FetchReq) -> FetchReply,
    submodules: (nat, Hash) -> Option<Failure>)

  /** The caller's context: is it done at that moment? */
  type Context = nat -> bool

  function Target(remote: Remote, attempt: Attempt): Option<Hash> {
    if attempt.refName == "" then remote.head
    else if attempt.refName in remote.refs then Some(remote.refs[attempt.refName])
    else None
  }

  ghost predicate Reaches(commits: map<Hash, Commit>, from: Hash, to: Hash, steps: nat)
    decreases steps
  {
    if steps == 0 then from == to
    else from in commits && exists p :: p in commits[from].parents && Reaches(commits, p, to, steps - 1)
  }

  /** In the history of from, within a clone depth; depth 0 is no limit, and depth 1 is from alone. */
  ghost predicate Within(remote: Remote, from: Hash, depth: nat, to: Hash) {
    exists steps: nat :: (depth == 0 || steps < depth) && Reaches(remote.store.commits, from, to, steps)
  }

  ghost predicate ReachableFrom(remote: Remote, from: Hash, to: Hash) {
    Within(remote, from, 0, to)
  }

  /** The tip of a branch or tag. */
  ghost predicate BranchOrTagTip(remote: Remote, h: Hash) {
    exists name :: name in remote.refs && (HEADS <= name || TAGS <= name) && remote.refs[name] == h
  }

  /** On a branch or tag, within a clone depth of its tip. */
  ghost predicate InDepth(remote: Remote, depth: nat, h: Hash) {
    exists tip :: BranchOrTagTip(remote, tip) && Within(remote, tip, depth, h)
  }

  ghost predicate OnBranchOrTag(remote: Remote, h: Hash) {
    InDepth(remote, 0, h)
  }

  /** HEAD or the target of any reference: what the remote tells everyone it has. */
  ghost predicate Advertised(remote: Remote, h: Hash) {
    remote.head == Some(h) || exists name :: name in remote.refs && remote.refs[name] == h
  }

  /** In the history of something advertised. */
  ghost predicate LedTo(remote: Remote, h: Hash) {
    exists tip :: Advertised(remote, tip) && ReachableFrom(remote, tip, h)
  }

  /** Everything is within any depth of itself; a tip is on its own branch, and advertised. */
  lemma TipWithin(remote: Remote, depth: nat, h: Hash)
    ensures Within(remote, h, depth, h)
    ensures BranchOrTagTip(remote, h) ==> InDepth(remote, depth, h) && Advertised(remote, h)
    ensures Advertised(remote, h) ==> LedTo(remote, h)
  {
    assert Reaches(remote.store.commits, h, h, 0);
    assert Within(remote, h, 0, h);
  }

  /** What is within some depth is within none. */
  lemma DepthOnBranch(remote: Remote, depth: nat, h: Hash)
    requires InDepth(remote, depth, h)
    ensures OnBranchOrTag(remote, h) && LedTo(remote, h)
  {
    var tip :| BranchOrTagTip(remote, tip) && Within(remote, tip, depth, h);
    TipWithin(remote, 0, tip);
    assert Within(remote, tip, 0, h);
  }

  lemma {:induction false} ReachesOn(commits: map<Hash, Commit>, from: Hash, via: Hash, to: Hash, a: nat, b: nat)
    requires Reaches(commits, from, via, a) && Reaches(commits, via, to, b)
    ensures Reaches(commits, from, to, a + b)
    decreases a
  {
    if a > 0 {
      var p :| p in commits[from].parents && Reaches(commits, p, via, a - 1);
      ReachesOn(commits, p, via, to, a - 1, b);
    }
  }

  lemma LedOn(remote: Remote, via: Hash, to: Hash)
    requires LedTo(remote, via) && ReachableFrom(remote, via, to)
    ensures LedTo(remote, to)
  {
    var tip :| Advertised(remote, tip) && ReachableFrom(remote, tip, via);
    var a: nat :| Reaches(remote.store.commits, tip, via, a);
    var b: nat :| Reaches(remote.store.commits, via, to, b);
    ReachesOn(remote.store.commits, tip, via, to, a, b);
    assert ReachableFrom(remote, tip, to);
  }

  /** What a clone asks for is led to. */
  lemma AskedIsLed(remote: Remote, req: CloneReq, h: Hash)
    requires Asked(remote, req, h)
    ensures LedTo(remote, h)
  {
    if InDepth(remote, req.depth, h) {
      DepthOnBranch(remote, req.depth, h);
    } else {
      var tip := Target(remote, req.attempt).value;
      assert Advertised(remote, tip) && ReachableFrom(remote, tip, h);
    }
  }

  /** The commit lists a submodule: only then has initialising submodules another repository to ask. */
  ghost predicate ListsSubmodule(remote: Remote, h: Hash) {
    h in remote.store.commits && exists r :: r in Listing(remote.store.commits[h].tree.entries) && r.item.Submodule?
  }

  ghost predicate PartOf(store: Store, whole: Store) {
    && (forall h :: h in store.commits ==> h in whole.commits && store.commits[h] == whole.commits[h])
    && (forall h :: h in store.blobs ==> h in whole.blobs && store.blobs[h] == whole.blobs[h])
  }

  /** Everything a checkout of the commit needs. */
  ghost predicate Whole(store: Store, h: Hash) {
    && h in store.commits && store.commits[h].tree.hash in store.trees
    && TreesPresent(store.trees, store.commits[h].tree.entries)
        && BlobsPresent(store.blobs, store.commits[h].tree.entries)
  }

  // What an honest answer means.

  /** No wire failure is one of the client's own marks, and one that blames the context does so truly. */
  ghost predicate ForeignFailure(ctx: Context, n: nat, failure: Failure) {
    && failure !in {Some(WantsRestricted), Some(SparseUnsupported), Some(PinnedUnsupported), Some(ObjectNotFound)}
    && (failure in {Some(Canceled), Some(DeadlineExceeded)} ==> ctx(n))
  }

  /** A failure of the remote itself also blames the credential truly. */
  ghost predicate HonestFailure(remote: Remote, ctx: Context, n: nat, auth: Auth, failure: Failure) {
    && ForeignFailure(ctx, n, failure)
    && (failure in {Some(AuthRequired), Some(AuthorizationFailed)} ==> auth !in remote.accepted)
  }

  ghost predicate HonestClone(remote: Remote, ctx: Context, n: nat, req: CloneReq, reply: CloneReply) {
    var target := Target(remote, req.attempt);
    match reply
    case Cloned(store) =>
      && req.auth in remote.accepted && PartOf(store, remote.store) && store.head.Some? && store.head == target
      && (if req.filtered then store.head.value in store.commits else Whole(store, store.head.value))
      && (forall h :: h in store.commits ==> Asked(remote, req, h))
      && (Everything(req) && !req.filtered ==> forall h :: InDepth(remote, req.depth, h) ==> Whole(store, h))
    case CloneFailed(failure, _) =>
      // A clone that also initialises submodules may pass on what another repository answered.
      if req.recurse && target.Some? && ListsSubmodule(remote, target.value) then ForeignFailure(ctx, n, failure)
      else
        && HonestFailure(remote, ctx, n, req.auth, failure) && failure != Some(NotOurRef)
        && (failure in {Some(RefNotFound), Some(EmptyRemote)} ==> target.None?)
  }

  /** A clone of every branch and tag. */
  predicate Everything(req: CloneReq) {
    !req.attempt.single && req.allTags
  }

  /**
   * What a clone asks for, and so the most that it brings: its target's history and, unless it is
   * of one branch alone, that of branches and tags, all within its depth.
   */
  ghost predicate Asked(remote: Remote, req: CloneReq, h: Hash) {
    || (Target(remote, req.attempt).Some? && Within(remote, Target(remote, req.attempt).value, req.depth, h))
    || ((!req.attempt.single || req.allTags) && InDepth(remote, req.depth, h))
  }

  ghost predicate HonestFetch(remote: Remote, ctx: Context, n: nat, req: FetchReq, reply: FetchReply) {
    match reply
    case Fetched(got) =>
      && req.auth in remote.accepted && PartOf(got, remote.store)
      && (forall h :: h in got.commits ==> Wanted(remote, req.wants, h))
      // A request for the commit graph brings all of it.
      && (req.filter == TreeNone && req.depth == 0 ==>
            forall h :: h in remote.store.commits && Wanted(remote, req.wants, h) ==> h in got.commits)
    case HandshakeFailed(failure) =>
      && HonestFailure(remote, ctx, n, req.auth, failure)
      && failure !in {Some(RefNotFound), Some(NotOurRef)}
      && (failure == Some(EmptyRemote) ==> Bare(remote))
    case FetchFailed(failure) =>
      && HonestFailure(remote, ctx, n, req.auth, failure)
      && failure != Some(RefNotFound)
      // A server that serves any reachable commit refuses only what is not; any other may say anything.
      && (!remote.restricted && failure in {Some(EmptyRemote), Some(NotOurRef)} ==> AsksUnled(remote, req.wants))
  }

  /** Nothing is advertised. */
  predicate Bare(remote: Remote) {
    remote.refs == map[] && remote.head.None?
  }

  /** Something is asked for that nothing advertised leads to. */
  ghost predicate AsksUnled(remote: Remote, wants: set<Hash>) {
    exists w :: w in wants && !LedTo(remote, w)
  }

  /** A pack holds no commit that is not in the history of what was asked for. */
  ghost predicate Wanted(remote: Remote, wants: set<Hash>, h: Hash) {
    exists w :: w in wants && ReachableFrom(remote, w, h)
  }

  /** Only where the commit lists submodules can their initialisation report what another repository said. */
  ghost predicate HonestSubmodules(remote: Remote, ctx: Context, n: nat, h: Hash, reply: Option<Failure>) {
    reply.Some? ==>
      && ForeignFailure(ctx, n, reply.value)
      && (!ListsSubmodule(remote, h) ==> reply.value in {None, Some(Canceled), Some(DeadlineExceeded)})
  }

  ghost predicate Honest(net: Network, ctx: Context) {
    && (forall n, req :: HonestClone(net.remote, ctx, n, req, net.clone(n, req)))
    && (forall n, req :: HonestFetch(net.remote, ctx, n, req, net.fetch(n, req)))
    && (forall n, h :: HonestSubmodules(net.remote, ctx, n, h, net.submodules(n, h)))
  }
}
