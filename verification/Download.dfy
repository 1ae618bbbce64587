/** The git download in its own form: methods over a destination directory and a repository. */
module Download {
  import opened Options
  import opened Strings
  import opened GitObjects
  import opened Cone
  import opened Checkout
  import opened Archive
  import opened Refs
  import opened Remotes
  import opened Engine
  import opened NoStaleFiles

  /** The connection: what a remote is asked, one operation at a time. */
  class Wire {
    var clock: nat

    constructor ()
      ensures clock == 0
    {
      clock := 0;
    }

    method Clone(net: Network, req: CloneReq) returns (reply: CloneReply)
      modifies this
      ensures reply == net.clone(old(clock), req) && clock == old(clock) + 1
    {
      reply := net.clone(clock, req);
      clock := clock + 1;
    }

    method Fetch(net: Network, req: FetchReq) returns (reply: FetchReply)
      modifies this
      ensures reply == net.fetch(old(clock), req) && clock == old(clock) + 1
    {
      reply := net.fetch(clock, req);
      clock := clock + 1;
    }
  }

  /** cloneByAttempts: a repository, or the error; stamp is the attempt that answered last. */
  method CloneInto(net: Network, wire: Wire, dest: Destination, req: CloneReq, attempts: seq<Attempt>, bare: bool)
    returns (repo: Repository?, err: Err, stamp: nat)
    requires attempts != []
    modifies wire, dest
    ensures var c := CloneByAttempts(net, State(old(wire.clock), old(dest.files)), req, attempts, bare);
            && c.st == State(wire.clock, dest.files)
            && (if repo != null then fresh(repo) && c.result == Repo(repo.store) && c.stamp == stamp
                else c.result == NoRepo(err))
  {
    ghost var st := State(wire.clock, dest.files);
    err := {};
    stamp := wire.clock;
    repo := null;
    var i := 0;
    while i < |attempts|
      invariant 0 <= i <= |attempts|
      invariant TryAttempts(net, st, req, attempts, bare, {})
             == TryAttempts(net, State(wire.clock, dest.files), req, attempts[i..], bare, err)
    {
      stamp := wire.clock;
      var reply := wire.Clone(net, req.(attempt := attempts[i]));
      assert attempts[i..][1..] == attempts[i + 1..];
      match reply
      case Cloned(store) =>
        dest.files := if bare then map[] else Worktree(store, stamp);
        repo := new Repository(store);
        return;
      case CloneFailed(failure, left) =>
        dest.files := Left(left, stamp);
        err := ErrOf(failure);
        if !MissingRef(attempts[i], err) {
          return;
        }
      i := i + 1;
    }
    if |attempts| > 1 {
      err := {RefNotFound};
    } else if |attempts| == 1 && attempts[0].refName != "" && EmptyRemote in err {
      err := {RefNotFound};
    }
  }

  method FetchInto(net: Network, wire: Wire, repo: Repository, req: FetchReq) returns (err: Option<Err>)
    modifies wire, repo
    ensures FetchObjects(net, old(wire.clock), old(repo.store), req) == Fetching(wire.clock, repo.store, err)
  {
    var reply := wire.Fetch(net, req);
    match reply
    case Fetched(got) =>
      repo.store := Merge(repo.store, got);
      err := None;
    case HandshakeFailed(failure) =>
      err := Some(ErrOf(failure));
    case FetchFailed(failure) =>
      err := Some(ErrOf(failure) + if net.remote.restricted then {WantsRestricted} else {});
  }

  method FetchCommit(net: Network, wire: Wire, repo: Repository, h: Hash, filter: Filter, depth: nat, auth: Auth)
    returns (err: Option<Err>)
    modifies wire, repo
    ensures FetchCommitByHash(net, old(wire.clock), old(repo.store), h, filter, depth, auth) ==
            Fetching(wire.clock, repo.store, err)
  {
    err := FetchInto(net, wire, repo, FetchReq({h}, filter, depth, auth));
    if err.Some? && CommitMissingOnRemote(err.value) {
      err := Some({RefNotFound});
    }
  }

  method EnsureTrees(net: Network, wire: Wire, repo: Repository, h: Hash, auth: Auth) returns (err: Option<Err>)
    modifies wire, repo
    ensures EnsureCommitTrees(net, old(wire.clock), old(repo.store), h, auth) == Fetching(wire.clock, repo.store, err)
  {
    if h in repo.store.commits && repo.store.commits[h].tree.hash in repo.store.trees {
      return None;
    }
    err := FetchCommit(net, wire, repo, h, BlobNone, 1, auth);
  }

  /** resolvePinnedCommit */
  method ResolvePinned(
    net: Network, wire: Wire, repo: Repository, j: Job, auth: Auth) returns (h: Hash, err: Option<Err>)
    modifies wire, repo
    ensures ResolvePinnedCommit(net, old(wire.clock), old(repo.store), j, auth) ==
            Located(wire.clock, repo.store, h, err)
  {
    var found := ResolveCommitHash(repo.store.commits, j.ref);
    if found.None? && |j.ref| == 40 {
      found := Some(ToLower(j.ref));
    }
    if found.None? {
      if repo.store.head.None? {
        return "", Some({});
      }
      err := FetchInto(net, wire, repo, FetchReq({repo.store.head.value}, TreeNone, 0, auth));
      if err.Some? {
        return "", err;
      }
      found := ResolveCommitHash(repo.store.commits, j.ref);
      if found.None? {
        return "", Some({});
      }
    }
    h := found.value;
    err := EnsureTrees(net, wire, repo, h, auth);
  }

  method CommitToWrite(
    net: Network, wire: Wire, repo: Repository, j: Job, auth: Auth) returns (h: Hash, err: Option<Err>)
    modifies wire, repo
    ensures SparseCommit(net, old(wire.clock), old(repo.store), j, auth) == Located(wire.clock, repo.store, h, err)
  {
    if LooksLikeCommitHash(j.ref) {
      h, err := ResolvePinned(net, wire, repo, j, auth);
      if err.Some? && WantsRestricted in err.value {
        err := Some(err.value + {SparseUnsupported});
      }
      return;
    }
    if repo.store.head.None? {
      return "", Some({});
    }
    return repo.store.head.value, None;
  }

  method SparseAnchorClone(net: Network, wire: Wire, j: Job, auth: Auth) returns (repo: Repository, err: Option<Err>)
    modifies wire
    ensures fresh(repo) && SparseClone(net, old(wire.clock), j, auth) == Fetching(wire.clock, repo.store, err)
  {
    var scratch := new Destination("/");
    var cloned, cloneErr, _ := CloneInto(net, wire, scratch, SparseReq(j, auth), SparseAttempts(j), true);
    if cloned != null {
      return cloned, None;
    }
    repo := new Repository(NO_OBJECTS);
    err := Some(if DefinitiveCloneError(cloneErr) then cloneErr else cloneErr + {SparseUnsupported});
  }

  method BlobsInto(
    net: Network, wire: Wire, repo: Repository, files: seq<SparseEntry>, auth: Auth) returns (err: Option<Err>)
    modifies wire, repo
    ensures FetchBlobs(net, old(wire.clock), old(repo.store), files, auth) == Fetching(wire.clock, repo.store, err)
  {
    var wants := Wants(repo, files);
    if |wants| == 0 {
      assert SetOf(wants) == {};
      return None;
    }
    assert wants[0] in SetOf(wants);
    err := FetchInto(net, wire, repo, FetchReq(SetOf(wants), NoFilter, 0, auth));
    if err.Some? {
      err := Some(err.value + {SparseUnsupported});
    }
  }

  /** sparseDownload */
  method Sparse(net: Network, wire: Wire, dest: Destination, j: Job, auth: Auth) returns (err: Option<Err>, stamp: nat)
    requires dest.root == j.root
    modifies wire, dest
    ensures SparseDownload(net, State(old(wire.clock), old(dest.files)), j, auth) ==
            Stage(State(wire.clock, dest.files), err, stamp)
  {
    stamp := wire.clock;
    var repo;
    repo, err := SparseAnchorClone(net, wire, j, auth);
    if err.Some? {
      return;
    }
    var commit;
    commit, err := CommitToWrite(net, wire, repo, j, auth);
    if err.Some? {
      return;
    }
    var sel := SparseEntries(repo, commit, j.subdir);
    if sel.None? {
      err := Some({ObjectNotFound});
      return;
    }
    if sel.value.submodules != [] && j.recurse {
      err := Some({SparseUnsupported});
      return;
    }
    err := BlobsInto(net, wire, repo, sel.value.files, auth);
    if err.Some? {
      return;
    }
    var status := Materialise(repo, sel.value.files, dest, stamp);
    err := WriteErr(status);
  }

  /** pinnedCommitClone */
  method PinnedClone(net: Network, wire: Wire, j: Job, auth: Auth) returns (repo: Repository, err: Option<Err>)
    modifies wire
    ensures fresh(repo) && PinnedCommitClone(net, old(wire.clock), j, auth) == Fetching(wire.clock, repo.store, err)
  {
    repo := new Repository(NO_OBJECTS);
    var depth := if j.depth > 0 || j.configDepth > 0 then ResolveDepth(j) else 1;
    var h := ToLower(j.ref);
    err := FetchCommit(net, wire, repo, h, NoFilter, depth, auth);
    if err.Some? {
      if !(AuthFailure(err.value) || j.ctx(wire.clock)) {
        if WantsRestricted in err.value || !(RefNotFound in err.value || DefinitiveCloneError(err.value)) {
          err := Some(err.value + {PinnedUnsupported});
        }
      }
      return;
    }
    var complete := CommitComplete(repo, h);
    if !complete {
      err := Some({PinnedUnsupported, ObjectNotFound});
    }
  }

  /** Writing a commit's files over the tracked ones, when every object is there. */
  method CheckOut(dest: Destination, store: Store, tracked: set<string>, h: Hash, stamp: nat) returns (ok: bool)
    requires h in store.commits
    modifies dest
    ensures var files := FullCheckout(old(dest.files), tracked, store, store.commits[h].tree, stamp);
            ok == files.Some? && dest.files == if ok then files.value else old(dest.files)
  {
    var tree := store.commits[h].tree;
    var walk := Walk(store.trees, tree.entries);
    WalkExact(store.trees, tree.entries);
    if tree.hash !in store.trees || !walk.complete {
      return false;
    }
    for i := 0 to |walk.rows|
      invariant forall k :: 0 <= k < i && walk.rows[k].item.File? ==> walk.rows[k].item.blob in store.blobs
    {
      if walk.rows[i].item.File? && walk.rows[i].item.blob !in store.blobs {
        assert walk.rows[i] in Listing(tree.entries);
        return false;
      }
    }
    dest.files := (dest.files - tracked) + TreeFiles(tree.entries, store.blobs, stamp);
    return true;
  }

  /** The steps of cloneAndPrepare after a repository is there. */
  method Prepare(
    net: Network, wire: Wire, dest: Destination, j: Job, repo: Repository, tracked: set<string>, stamp: nat)
    returns (err: Option<Err>)
    modifies wire, dest
    ensures Prepared(net, State(old(wire.clock), old(dest.files)), j, old(repo.store), tracked, stamp)
         == Stage(State(wire.clock, dest.files), err, stamp)
  {
    if LooksLikeCommitHash(j.ref) {
      var h := ResolveCommitHash(repo.store.commits, j.ref);
      if h.None? || h.value !in repo.store.commits {
        return Some({});
      }
      var ok := CheckOut(dest, repo.store, tracked, h.value, stamp);
      if !ok {
        return Some({ObjectNotFound});
      }
      if j.recurse {
        var failure := net.submodules(wire.clock, h.value);
        wire.clock := wire.clock + 1;
        if failure.Some? {
          return Some(ErrOf(failure.value));
        }
      }
    }
    if j.subdir == "" || IsDirectory(dest.files, j.subdir) {
      return None;
    }
    return Some({});
  }

  method Full(net: Network, wire: Wire, dest: Destination, j: Job, auth: Auth) returns (err: Option<Err>, stamp: nat)
    modifies wire, dest
    ensures var s := FullClone(net, State(old(wire.clock), old(dest.files)), j, auth);
            s.st == State(wire.clock, dest.files) && s.err == err && (err.None? ==> s.stamp == stamp)
  {
    var repo, cloneErr;
    repo, cloneErr, stamp := CloneInto(net, wire, dest, FullReq(j, auth), CloneAttempts(j.ref), false);
    if repo == null {
      err := Some(cloneErr);
      return;
    }
    err := Prepare(net, wire, dest, j, repo, dest.files.Keys, stamp);
  }

  /** cloneAndPrepare */
  method CloneThenPrepare(
    net: Network, wire: Wire, dest: Destination, j: Job, auth: Auth) returns (err: Option<Err>, stamp: nat)
    requires dest.root == j.root
    modifies wire, dest
    ensures var s := CloneAndPrepare(net, State(old(wire.clock), old(dest.files)), j, auth);
            s.st == State(wire.clock, dest.files) && s.err == err && (err.None? ==> s.stamp == stamp)
  {
    if j.subdir != "" {
      err, stamp := Sparse(net, wire, dest, j, auth);
      if err.None? || SparseUnsupported !in err.value {
        return;
      }
      dest.Reset();
    }
    if PinnedEligible(j) {
      stamp := wire.clock;
      var repo;
      repo, err := PinnedClone(net, wire, j, auth);
      if err.None? {
        err := Prepare(net, wire, dest, j, repo, {}, stamp);
        return;
      }
      if PinnedUnsupported !in err.value {
        return;
      }
      dest.Reset();
    }
    err, stamp := Full(net, wire, dest, j, auth);
  }

  /** gitDownload */
  method OneCandidate(c: Candidate, wire: Wire, dest: Destination, j: Job) returns (err: Option<Err>, stamp: nat)
    requires dest.root == j.root
    modifies wire, dest
    ensures var s := GitDownload(c, State(old(wire.clock), old(dest.files)), j).stage;
            s.st == State(wire.clock, dest.files) && s.err == err && (err.None? ==> s.stamp == stamp)
  {
    stamp := wire.clock;
    if c.guard.Some? {
      return c.guard, stamp;
    }
    ghost var st := State(wire.clock, dest.files);
    ghost var w := Start(st);
    var errs: seq<Err> := [];
    var attempted := false;
    var i := 0;
    while i < |c.sources|
      invariant 0 <= i <= |c.sources|
      invariant w.st == State(wire.clock, dest.files) && w.errs == errs && w.end == Walking
      invariant attempted <==> w.tried != []
      invariant |w.tried| == |w.errs|
      invariant errs != [] ==> AuthFailure(errs[|errs| - 1])
      invariant WalkChain(c.net, j, Start(st), c.sources) == WalkChain(c.net, j, w, c.sources[i..])
    {
      var source := c.sources[i];
      assert c.sources[i..][1..] == c.sources[i + 1..];
      w := WalkOne(c.net, j, w, source);
      i := i + 1;
      match source
      case Declines =>
      case Broken(e) =>
        assert WalkChain(c.net, j, Start(st), c.sources) == w;
        return Some(e), stamp;
      case Offers(auth) =>
        if attempted {
          dest.Reset();
        }
        attempted := true;
        err, stamp := CloneThenPrepare(c.net, wire, dest, j, auth);
        if err.None? {
          assert WalkChain(c.net, j, Start(st), c.sources) == w;
          return;
        }
        errs := errs + [err.value];
        if !AuthFailure(err.value) {
          assert WalkChain(c.net, j, Start(st), c.sources) == w;
          break;
        }
    }
    assert WalkChain(c.net, j, Start(st), c.sources) == w;
    if !attempted {
      err, stamp := CloneThenPrepare(c.net, wire, dest, j, Anonymous);
      return;
    }
    var last := |errs| - 1;
    if last == 0 || AuthFailure(errs[last]) {
      return Some(errs[last]), stamp;
    }
    return Some(Joined(errs)), stamp;
  }

  /** Download; ok reports success, and then stamp is the attempt whose files are in the directory. */
  method DownloadAll(wire: Wire, dest: Destination, j: Job, candidates: seq<Candidate>, platform: Platform)
    returns (ok: bool, errs: Err, stamp: nat)
    requires dest.root == j.root
    modifies wire, dest
    ensures var r := Engine.Download(State(old(wire.clock), old(dest.files)), j, candidates, platform);
            && r.st == State(wire.clock, dest.files) && r.errs == errs && r.done == ok
            && (ok ==> r.stamp == stamp)
    ensures ok && old(dest.files) == map[] ==> old(wire.clock) <= stamp < wire.clock && AllStamped(dest.files, stamp)
  {
    ghost var st := State(wire.clock, dest.files);
    if dest.files == map[] {
      NoFileSurvivesAFailedAttempt(st, j, candidates, platform);
    }
    errs := {};
    stamp := wire.clock;
    var i := 0;
    while i < |candidates|
      invariant 0 <= i <= |candidates|
      invariant TryCandidates(st, j, candidates, true, {})
             == TryCandidates(State(wire.clock, dest.files), j, candidates[i..], i == 0, errs)
    {
      var c := candidates[i];
      assert candidates[i..][1..] == candidates[i + 1..];
      if i > 0 {
        dest.Reset();
      }
      i := i + 1;
      if c.probe.Some? {
        errs := errs + c.probe.value;
      } else {
        var err;
        err, stamp := OneCandidate(c, wire, dest, j);
        if err.None? {
          return true, errs, stamp;
        }
        errs := errs + err.value;
        if DefinitiveCloneError(err.value) {
          break;
        }
      }
    }
    ghost var r := TryCandidates(st, j, candidates, true, {});
    assert r.st == State(wire.clock, dest.files) && r.errs == errs && !r.done;
    if LooksLikeCommitHash(j.ref) && !j.ctx(wire.clock) {
      dest.Reset();
      var entries := platform(wire.clock);
      stamp := wire.clock;
      wire.clock := wire.clock + 1;
      if entries.None? {
        return false, errs, stamp;
      }
      var status := ExtractArchive(entries.value, dest, j.subdir, j.maxBytes, stamp);
      return status == Going, errs, stamp;
    }
    return false, errs, stamp;
  }
}
