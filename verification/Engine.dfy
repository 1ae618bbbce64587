/**
 * The git download as a function: sparse partial clone, pinned commit, full clone, then the
 * credential chain and the scheme candidates around them (protocols/git/git.go, sparse.go,
 * pinned.go). Download.dfy holds the code in its own, imperative form.
 */
module Engine {
  import opened Options
  import opened Strings
  import opened GitObjects
  import opened Cone
  import opened Checkout
  import opened Archive
  import opened Refs
  import opened Remotes

  /** What is asked for, and the settings that shape how. */
  datatype Job = Job(
    ref: string, subdir: string, depth: nat, configDepth: nat, recurse: bool, maxBytes: int, root: string, ctx: Context)

  /** The destination's files, and how many operations the remotes have answered. */
  datatype State = State(clock: nat, files: Files)

  predicate PinnedEligible(j: Job) {
    |j.ref| == 40 && LooksLikeCommitHash(j.ref)
  }

  function ResolveDepth(j: Job): nat {
    if j.depth > 0 then j.depth
    else if j.configDepth > 0 then j.configDepth
    else if LooksLikeCommitHash(j.ref) then 0
    else 1
  }

  function Merge(a: Store, b: Store): Store {
    Store(a.commits + b.commits, a.trees + b.trees, a.blobs + b.blobs, a.head)
  }

  // Cloning.

  function Left(left: map<string, Bytes>, stamp: nat): Files {
    map k | k in left :: OnDisk(Regular, left[k], stamp)
  }

  /** The files a non-bare clone checks out. */
  function Worktree(store: Store, stamp: nat): Files {
    if store.head.Some? && store.head.value in store.commits
    then TreeFiles(store.commits[store.head.value].tree.entries, store.blobs, stamp)
    else map[]
  }

  datatype CloneResult = Repo(store: Store) | NoRepo(err: Err) | AllMissing(err: Err)

  /** stamp is the attempt that made the repository, or the last one that failed to. */
  datatype Cloning = Cloning(st: State, result: CloneResult, stamp: nat)

  function TryAttempts(net: Network, st: State, req: CloneReq, attempts: seq<Attempt>, bare: bool, last: Err): Cloning
    decreases attempts
  {
    if attempts == [] then Cloning(st, AllMissing(last), st.clock)
    else
      match net.clone(st.clock, req.(attempt := attempts[0]))
      case Cloned(store) =>
        Cloning(State(st.clock + 1, if bare then map[] else Worktree(store, st.clock)), Repo(store), st.clock)
      case CloneFailed(failure, left) =>
        var err := ErrOf(failure);
        var after := State(st.clock + 1, Left(left, st.clock));
        if MissingRef(attempts[0], err) then TryAttempts(net, after, req, attempts[1..], bare, err)
        else Cloning(after, NoRepo(err), st.clock)
  }

  function MissingErr(attempts: seq<Attempt>, err: Err): Err {
    if |attempts| > 1 then {RefNotFound}
    else if |attempts| == 1 && attempts[0].refName != "" && EmptyRemote in err then {RefNotFound}
    else err
  }

  function CloneByAttempts(net: Network, st: State, req: CloneReq, attempts: seq<Attempt>, bare: bool): Cloning {
    var c := TryAttempts(net, st, req, attempts, bare, {});
    if c.result.AllMissing? then c.(result := NoRepo(MissingErr(attempts, c.result.err))) else c
  }

  // Fetching by hash.

  datatype Fetching = Fetching(clock: nat, store: Store, err: Option<Err>)

  function FetchObjects(net: Network, clock: nat, store: Store, req: FetchReq): Fetching {
    match net.fetch(clock, req)
    case Fetched(got) => Fetching(clock + 1, Merge(store, got), None)
    case HandshakeFailed(failure) => Fetching(clock + 1, store, Some(ErrOf(failure)))
    case FetchFailed(failure) =>
      Fetching(clock + 1, store, Some(ErrOf(failure) + if net.remote.restricted then {WantsRestricted} else {}))
  }

  function FetchCommitByHash(
    net: Network, clock: nat, store: Store, h: Hash, filter: Filter, depth: nat, auth: Auth): Fetching {
    var f := FetchObjects(net, clock, store, FetchReq({h}, filter, depth, auth));
    if f.err.Some? && CommitMissingOnRemote(f.err.value) then f.(err := Some({RefNotFound})) else f
  }

  function EnsureCommitTrees(net: Network, clock: nat, store: Store, h: Hash, auth: Auth): Fetching {
    if h in store.commits && store.commits[h].tree.hash in store.trees then Fetching(clock, store, None)
    else FetchCommitByHash(net, clock, store, h, BlobNone, 1, auth)
  }

  // The sparse stage.

  datatype Located = Located(clock: nat, store: Store, commit: Hash, err: Option<Err>)

  ghost function ResolvePinnedCommit(net: Network, clock: nat, store: Store, j: Job, auth: Auth): Located {
    var here := ResolveHash(store.commits, j.ref);
    if here.Some? then Ensured(EnsureCommitTrees(net, clock, store, here.value, auth), here.value)
    else if |j.ref| == 40 then Ensured(EnsureCommitTrees(net, clock, store, ToLower(j.ref), auth), ToLower(j.ref))
    else if store.head.None? then Located(clock, store, "", Some({}))
    else
      var graph := FetchObjects(net, clock, store, FetchReq({store.head.value}, TreeNone, 0, auth));
      if graph.err.Some? then Located(graph.clock, graph.store, "", graph.err)
      else
        var found := ResolveHash(graph.store.commits, j.ref);
        if found.None? then Located(graph.clock, graph.store, "", Some({}))
        else Ensured(EnsureCommitTrees(net, graph.clock, graph.store, found.value, auth), found.value)
  }

  function Ensured(f: Fetching, h: Hash): Located {
    Located(f.clock, f.store, h, f.err)
  }

  ghost function SparseCommit(net: Network, clock: nat, store: Store, j: Job, auth: Auth): Located {
    if LooksLikeCommitHash(j.ref) then
      var l := ResolvePinnedCommit(net, clock, store, j, auth);
      if l.err.Some? && WantsRestricted in l.err.value then l.(err := Some(l.err.value + {SparseUnsupported})) else l
    else if store.head.None? then Located(clock, store, "", Some({}))
    else Located(clock, store, store.head.value, None)
  }

  function SparseReq(j: Job, auth: Auth): CloneReq {
    CloneReq(Attempt("", true), if LooksLikeCommitHash(j.ref) then 1 else ResolveDepth(j), true, false, false, auth)
  }

  function SparseAttempts(j: Job): seq<Attempt> {
    if LooksLikeCommitHash(j.ref) then [Attempt("", true)] else CloneAttempts(j.ref)
  }

  function SparseClone(net: Network, clock: nat, j: Job, auth: Auth): Fetching {
    var c := CloneByAttempts(net, State(clock, map[]), SparseReq(j, auth), SparseAttempts(j), true);
    match c.result
    case Repo(store) => Fetching(c.st.clock, store, None)
    case NoRepo(err) =>
      Fetching(c.st.clock, NO_OBJECTS, Some(if DefinitiveCloneError(err) then err else err + {SparseUnsupported}))
    case AllMissing(err) => Fetching(c.st.clock, NO_OBJECTS, Some(err))
  }

  function FetchBlobs(net: Network, clock: nat, store: Store, files: seq<SparseEntry>, auth: Auth): Fetching {
    var wants := BlobsOf(files) - store.blobs.Keys;
    if wants == {} then Fetching(clock, store, None)
    else
      var f := FetchObjects(net, clock, store, FetchReq(wants, NoFilter, 0, auth));
      if f.err.Some? then f.(err := Some(f.err.value + {SparseUnsupported})) else f
  }

  /** How a stage ended: the state it left, its error if it failed, and the attempt whose files it left. */
  datatype Stage = Stage(st: State, err: Option<Err>, stamp: nat)

  ghost function SparseDownload(net: Network, st: State, j: Job, auth: Auth): Stage {
    var c := SparseClone(net, st.clock, j, auth);
    if c.err.Some? then Stage(State(c.clock, st.files), c.err, st.clock)
    else
      var l := SparseCommit(net, c.clock, c.store, j, auth);
      if l.err.Some? then Stage(State(l.clock, st.files), l.err, st.clock)
      else
        var sel := Select(l.store.commits, l.store.trees, l.commit, j.subdir);
        if sel.None? then Stage(State(l.clock, st.files), Some({ObjectNotFound}), st.clock)
        else if sel.value.submodules != [] && j.recurse then
          Stage(State(l.clock, st.files), Some({SparseUnsupported}), st.clock)
        else SparseWrite(net, State(l.clock, st.files), j, l.store, sel.value.files, auth, st.clock)
  }

  function SparseWrite(
    net: Network, st: State, j: Job, store: Store, files: seq<SparseEntry>, auth: Auth, stamp: nat): Stage {
    var f := FetchBlobs(net, st.clock, store, files, auth);
    if f.err.Some? then Stage(State(f.clock, st.files), f.err, stamp)
    else
      var w := WriteAll(st.files, j.root, f.store.blobs, files, stamp);
      Stage(State(f.clock, w.files), WriteErr(w.status), stamp)
  }

  function WriteErr(status: Written): Option<Err> {
    match status
    case Written => None
    case Undelivered => Some({SparseUnsupported, ObjectNotFound})
    case Escaped => Some({})
  }

  // The pinned and the full stage.

  ghost function PinnedCommitClone(net: Network, clock: nat, j: Job, auth: Auth): Fetching {
    var depth := if j.depth > 0 || j.configDepth > 0 then ResolveDepth(j) else 1;
    var h := ToLower(j.ref);
    var f := FetchCommitByHash(net, clock, NO_OBJECTS, h, NoFilter, depth, auth);
    if f.err.Some? then f.(err := Some(PinnedErr(f.err.value, j.ctx(f.clock))))
    else if h in f.store.commits && CompleteIn(f.store, f.store.commits[h].tree) then f
    else f.(err := Some({PinnedUnsupported, ObjectNotFound}))
  }

  function PinnedErr(err: Err, done: bool): Err {
    if AuthFailure(err) || done then err
    else if WantsRestricted in err then err + {PinnedUnsupported}
    else if RefNotFound in err || DefinitiveCloneError(err) then err
    else err + {PinnedUnsupported}
  }

  function FullReq(j: Job, auth: Auth): CloneReq {
    var pinned := LooksLikeCommitHash(j.ref);
    CloneReq(Attempt("", false), ResolveDepth(j), false, pinned, j.recurse && !pinned, auth)
  }

  ghost function CheckoutCommit(
    net: Network, st: State, j: Job, store: Store, tracked: set<string>, stamp: nat): Stage {
    var h := ResolveHash(store.commits, j.ref);
    if h.None? || h.value !in store.commits then Stage(st, Some({}), stamp)
    else
      var files := FullCheckout(st.files, tracked, store, store.commits[h.value].tree, stamp);
      if files.None? then Stage(st, Some({ObjectNotFound}), stamp)
      else if !j.recurse then Stage(State(st.clock, files.value), None, stamp)
      else
        var failure := net.submodules(st.clock, h.value);
        Stage(State(st.clock + 1, files.value), if failure.Some? then Some(ErrOf(failure.value)) else None, stamp)
  }

  predicate IsDirectory(files: Files, subdir: string) {
    subdir !in files && exists k :: k in files && subdir + "/" <= k
  }

  /** The checks after a clone: the commit checked out, and the subdirectory in place. */
  ghost function Prepared(net: Network, st: State, j: Job, store: Store, tracked: set<string>, stamp: nat): Stage {
    var co :=
      if LooksLikeCommitHash(j.ref) then CheckoutCommit(net, st, j, store, tracked, stamp) else Stage(st, None, stamp);
    if co.err.Some? || j.subdir == "" || IsDirectory(co.st.files, j.subdir) then co
    else co.(err := Some({}))
  }

  ghost function FullClone(net: Network, st: State, j: Job, auth: Auth): Stage {
    var c := CloneByAttempts(net, st, FullReq(j, auth), CloneAttempts(j.ref), false);
    if c.result.Repo? then Prepared(net, c.st, j, c.result.store, c.st.files.Keys, c.stamp)
    else Stage(c.st, Some(c.result.err), c.stamp)
  }

  ghost function WithoutSparse(net: Network, st: State, j: Job, auth: Auth): Stage {
    if !PinnedEligible(j) then FullClone(net, st, j, auth)
    else
      var p := PinnedCommitClone(net, st.clock, j, auth);
      if p.err.None? then Prepared(net, State(p.clock, st.files), j, p.store, {}, st.clock)
      else if PinnedUnsupported in p.err.value then FullClone(net, State(p.clock, map[]), j, auth)
      else Stage(State(p.clock, st.files), p.err, st.clock)
  }

  /** cloneAndPrepare */
  ghost function CloneAndPrepare(net: Network, st: State, j: Job, auth: Auth): Stage {
    if j.subdir == "" then WithoutSparse(net, st, j, auth)
    else
      var s := SparseDownload(net, st, j, auth);
      if s.err.Some? && SparseUnsupported in s.err.value then WithoutSparse(net, State(s.st.clock, map[]), j, auth)
      else s
  }

  // The credential chain.

  /** A credential source, resolved only when its turn comes. */
  datatype Source = Declines | Broken(err: Err) | Offers(auth: Auth)

  datatype WalkEnd = Walking | Stopped | BadSource(err: Err) | Downloaded

  /** A walk along the chain: how many sources were resolved, which credentials were tried, how each failed. */
  datatype ChainWalk = ChainWalk(st: State, resolved: nat, tried: seq<Auth>, errs: seq<Err>, end: WalkEnd, stamp: nat)

  ghost function WalkOne(net: Network, j: Job, w: ChainWalk, source: Source): ChainWalk {
    var v := w.(resolved := w.resolved + 1);
    match source
    case Declines => v
    case Broken(err) => v.(end := BadSource(err))
    case Offers(auth) =>
      var st := if w.tried != [] then State(w.st.clock, map[]) else w.st;
      var p := CloneAndPrepare(net, st, j, auth);
      var u := v.(st := p.st, tried := w.tried + [auth], stamp := p.stamp);
      if p.err.None? then u.(end := Downloaded)
      else u.(errs := w.errs + [p.err.value], end := if AuthFailure(p.err.value) then Walking else Stopped)
  }

  ghost function WalkChain(net: Network, j: Job, w: ChainWalk, sources: seq<Source>): ChainWalk
    decreases sources
  {
    if sources == [] || w.end != Walking then w
    else WalkChain(net, j, WalkOne(net, j, w, sources[0]), sources[1..])
  }

  function Start(st: State): ChainWalk {
    ChainWalk(st, 0, [], [], Walking, st.clock)
  }

  /** gitDownload's outcome; rejected counts the credentials in "tried N credentials, all rejected". */
  datatype Git = Git(stage: Stage, anonymous: bool, rejected: Option<nat>)

  function Joined(errs: seq<Err>): Err {
    if errs == [] then {} else Joined(errs[..|errs| - 1]) + errs[|errs| - 1]
  }

  ghost function Settle(net: Network, j: Job, w: ChainWalk): Git {
    var last := |w.errs| - 1;
    if w.end == Downloaded then Git(Stage(w.st, None, w.stamp), false, None)
    else if w.end.BadSource? then Git(Stage(w.st, Some(w.end.err), w.stamp), false, None)
    else if w.tried == [] then Git(CloneAndPrepare(net, w.st, j, Anonymous), true, None)
    else if last < 0 then Git(Stage(w.st, Some({}), w.stamp), false, None)
    else if last == 0 then Git(Stage(w.st, Some(w.errs[0]), w.stamp), false, None)
    else if AuthFailure(w.errs[last]) then Git(Stage(w.st, Some(w.errs[last]), w.stamp), false, Some(|w.errs|))
    else Git(Stage(w.st, Some(Joined(w.errs)), w.stamp), false, None)
  }

  /** One URL to try: its remote, the checks before it is contacted, and its credential chain. */
  datatype Candidate = Candidate(net: Network, probe: Option<Err>, guard: Option<Err>, sources: seq<Source>)

  ghost function GitDownload(c: Candidate, st: State, j: Job): Git {
    if c.guard.Some? then Git(Stage(st, c.guard, st.clock), false, None)
    else Settle(c.net, j, WalkChain(c.net, j, Start(st), c.sources))
  }

  // The whole download.

  datatype Run = Run(st: State, errs: Err, done: bool, stamp: nat)

  ghost function TryCandidates(st: State, j: Job, candidates: seq<Candidate>, first: bool, errs: Err): Run
    decreases candidates
  {
    if candidates == [] then Run(st, errs, false, st.clock)
    else
      var c := candidates[0];
      var clean := if first then st else State(st.clock, map[]);
      if c.probe.Some? then TryCandidates(clean, j, candidates[1..], false, errs + c.probe.value)
      else
        var g := GitDownload(c, clean, j).stage;
        if g.err.None? then Run(g.st, errs, true, g.stamp)
        else if DefinitiveCloneError(g.err.value) then Run(g.st, errs + g.err.value, false, g.stamp)
        else TryCandidates(g.st, j, candidates[1..], false, errs + g.err.value)
  }

  /** What the hosting platform answers a request for the commit's tarball; None is any failure. */
  type Platform = nat -> Option<seq<TarEntry>>

  ghost function Download(st: State, j: Job, candidates: seq<Candidate>, platform: Platform): Run {
    var r := TryCandidates(st, j, candidates, true, {});
    if r.done || !LooksLikeCommitHash(j.ref) || j.ctx(r.st.clock) then r
    else
      var entries := platform(r.st.clock);
      if entries.None? then Run(State(r.st.clock + 1, map[]), r.errs, false, r.st.clock)
      else
        var x := Extracted(map[], entries.value, j.root, j.subdir, j.maxBytes, r.st.clock);
        Run(State(r.st.clock + 1, x.files), r.errs, x.status == Going, r.st.clock)
  }
}
