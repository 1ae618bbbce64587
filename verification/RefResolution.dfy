/** A named reference is downloaded at the first of its spellings that exists. */
module RefResolution {
  import opened Options
  import opened Paths
  import opened GitObjects
  import opened Checkout
  import opened Refs
  import opened Remotes
  import opened Engine
  import opened Verdicts
  import opened Fallback

  /**
   * A remote that answers an ordinary clone of what exists with the repository, and any clone of what
   * does not with either of the two signals there are for it. A partial clone of what exists brings
   * whole trees or fails in some way that another clone may mend.
   */
  ghost predicate AnswersNames(net: Network, auth: Auth) {
    forall n: nat, req: CloneReq :: req.auth == auth ==> AnswersName(net.remote, req, net.clone(n, req))
  }

  ghost predicate AnswersName(remote: Remote, req: CloneReq, reply: CloneReply) {
    match reply
    case Cloned(store) => Target(remote, req.attempt).Some?
      && (req.filtered && store.head.Some? ==> TreesOf(store, store.head.value))
    case CloneFailed(failure, _) =>
      if Target(remote, req.attempt).None? then failure in {Some(RefNotFound), Some(EmptyRemote)}
      else req.filtered && !DefinitiveCloneError(ErrOf(failure))
  }

  ghost predicate TreesOf(store: Store, h: Hash) {
    h in store.commits && store.commits[h].tree.hash in store.trees
      && TreesPresent(store.trees, store.commits[h].tree.entries)
  }

  /** The spelling at i is the first that exists. */
  ghost predicate FirstAt(remote: Remote, attempts: seq<Attempt>, i: nat) {
    i < |attempts| && Target(remote, attempts[i]).Some? && forall k :: 0 <= k < i ==> Target(remote, attempts[k]).None?
  }

  /** The clone ended at the tip: with its repository or, only when it was partial, with an error that leads on. */
  ghost predicate EndsAt(net: Network, req: CloneReq, bare: bool, tip: Hash, stamp: nat, c: Cloning) {
    match c.result
    case Repo(store) =>
      && c.stamp == stamp && c.st.files == (if bare then map[] else Worktree(store, stamp))
      && store.head == Some(tip) && PartOf(store, net.remote.store)
      && if req.filtered then TreesOf(store, tip) else Whole(store, tip)
    case NoRepo(err) => req.filtered && !DefinitiveCloneError(err)
    case AllMissing(_) => false
  }

  predicate AllNamed(attempts: seq<Attempt>) {
    forall a :: a in attempts ==> a.refName != ""
  }

  lemma {:induction false} FirstExisting(
    net: Network, ctx: Context, st: State, req: CloneReq, attempts: seq<Attempt>, bare: bool, last: Err, i: nat)
    requires Honest(net, ctx) && AnswersNames(net, req.auth)
    requires FirstAt(net.remote, attempts, i) && (i > 0 ==> AllNamed(attempts))
    ensures EndsAt(net, req, bare, Target(net.remote, attempts[i]).value, st.clock + i,
            TryAttempts(net, st, req, attempts, bare, last))
    decreases i
  {
    if i == 0 {
      EndsNow(net, ctx, st, req, attempts, bare, last);
    } else {
      var reply := net.clone(st.clock, req.(attempt := attempts[0]));
      Answered(net, ctx, st.clock, req, attempts[0]);
      LaterFirst(net.remote, attempts, i);
      FirstExisting(net, ctx, State(st.clock + 1, Left(reply.left, st.clock)), req, attempts[1..], bare,
        ErrOf(reply.failure), i - 1);
    }
  }

  lemma EndsNow(
    net: Network, ctx: Context, st: State, req: CloneReq, attempts: seq<Attempt>, bare: bool, last: Err)
    requires Honest(net, ctx) && AnswersNames(net, req.auth) && attempts != []
    requires Target(net.remote, attempts[0]).Some?
    ensures EndsAt(net, req, bare, Target(net.remote, attempts[0]).value, st.clock,
            TryAttempts(net, st, req, attempts, bare, last))
  {
    Answered(net, ctx, st.clock, req, attempts[0]);
  }

  lemma LaterFirst(remote: Remote, attempts: seq<Attempt>, i: nat)
    requires FirstAt(remote, attempts, i) && i > 0 && AllNamed(attempts)
    ensures attempts[0].refName != "" && Target(remote, attempts[0]).None?
    ensures FirstAt(remote, attempts[1..], i - 1) && AllNamed(attempts[1..])
  {
    assert forall k :: 0 <= k < |attempts[1..]| ==> attempts[1..][k] == attempts[k + 1];
  }

  /** One spelling: what exists is cloned, or fails in a way that leads on; what does not is reported missing. */
  lemma Answered(net: Network, ctx: Context, n: nat, req: CloneReq, a: Attempt)
    requires Honest(net, ctx) && AnswersNames(net, req.auth)
    ensures var reply, target := net.clone(n, req.(attempt := a)), Target(net.remote, a);
            match reply
            case Cloned(store) =>
              && target.Some? && store.head == target && PartOf(store, net.remote.store)
              && if req.filtered then TreesOf(store, target.value) else Whole(store, target.value)
            case CloneFailed(failure, _) =>
              if target.None? then a.refName != "" ==> MissingRef(a, ErrOf(failure))
              else req.filtered && !DefinitiveCloneError(ErrOf(failure))
  {
    var r := req.(attempt := a);
    assert HonestClone(net.remote, ctx, n, r, net.clone(n, r));
    assert AnswersName(net.remote, r, net.clone(n, r));
  }

  lemma {:induction false} NoneExisting(
    net: Network, st: State, req: CloneReq, attempts: seq<Attempt>, bare: bool, last: Err)
    requires AnswersNames(net, req.auth)
    requires AllNamed(attempts) && NoneOnRemote(net.remote, attempts)
    requires attempts == [] ==> last == {RefNotFound} || last == {EmptyRemote}
    ensures var c := TryAttempts(net, st, req, attempts, bare, last);
            c.result == AllMissing({RefNotFound}) || c.result == AllMissing({EmptyRemote})
    decreases attempts
  {
    if attempts != [] {
      var r := req.(attempt := attempts[0]);
      assert attempts[0] in attempts;
      var reply := net.clone(st.clock, r);
      assert AnswersName(net.remote, r, reply);
      NoneExisting(net, State(st.clock + 1, Left(reply.left, st.clock)), req, attempts[1..], bare,
        ErrOf(reply.failure));
    }
  }

  lemma NamedAttempts(ref: string)
    requires !LooksLikeCommitHash(ref)
    ensures if ref == "" then |CloneAttempts(ref)| == 1 else AllNamed(CloneAttempts(ref))
  {}

  /** A name, or none and so HEAD, asked for in a directory of a remote whose commits are whole. */
  ghost predicate Named(remote: Remote, j: Job) {
    && !LooksLikeCommitHash(j.ref)
    && Rooted(j.root) && CleanSegs(j.root) != []
    && forall h :: h in remote.store.commits ==> Whole(remote.store, h) && Wf(remote.store.commits[h].tree.entries)
  }

  ghost function FilesOf(remote: Remote, tip: Hash, stamp: nat): Files
    requires tip in remote.store.commits
  {
    TreeFiles(remote.store.commits[tip].tree.entries, remote.store.blobs, stamp)
  }

  lemma FullLands(net: Network, st: State, j: Job, auth: Auth, i: nat, segs: seq<string>)
    requires Honest(net, j.ctx) && AnswersNames(net, auth) && Named(net.remote, j)
    requires FirstAt(net.remote, CloneAttempts(j.ref), i)
    requires var tip := Target(net.remote, CloneAttempts(j.ref)[i]).value;
             tip in net.remote.store.commits ==> GoodSubdir(net.remote.store.commits[tip].tree.entries, j.subdir, segs)
    ensures var s, tip := FullClone(net, st, j, auth), Target(net.remote, CloneAttempts(j.ref)[i]).value;
            && tip in net.remote.store.commits && s.err.None? && s.stamp == st.clock + i
            && s.st.files == FilesOf(net.remote, tip, s.stamp)
  {
    NamedAttempts(j.ref);
    ClonedLands(net, st, j, FullReq(j, auth), CloneAttempts(j.ref), i, segs);
  }

  lemma ClonedLands(net: Network, st: State, j: Job, req: CloneReq, attempts: seq<Attempt>, i: nat, segs: seq<string>)
    requires Honest(net, j.ctx) && AnswersNames(net, req.auth) && !req.filtered && !LooksLikeCommitHash(j.ref)
    requires FirstAt(net.remote, attempts, i) && (i > 0 ==> AllNamed(attempts))
    requires var tip := Target(net.remote, attempts[i]).value;
             tip in net.remote.store.commits ==>
               var es := net.remote.store.commits[tip].tree.entries; Wf(es) && GoodSubdir(es, j.subdir, segs)
    ensures var c, tip := CloneByAttempts(net, st, req, attempts, false), Target(net.remote, attempts[i]).value;
            && c.result.Repo? && c.stamp == st.clock + i && tip in net.remote.store.commits
            && Prepared(net, c.st, j, c.result.store, c.st.files.Keys, c.stamp) == Stage(c.st, None, c.stamp)
            && c.st.files == FilesOf(net.remote, tip, c.stamp)
  {
    FirstExisting(net, j.ctx, st, req, attempts, false, {}, i);
    var c := TryAttempts(net, st, req, attempts, false, {});
    TipPrepared(net, c.st, j, c.result.store, Target(net.remote, attempts[i]).value, c.st.files.Keys, c.stamp, segs);
  }

  lemma TipPrepared(
    net: Network, st: State, j: Job, store: Store, tip: Hash, tracked: set<string>, stamp: nat, segs: seq<string>)
    requires !LooksLikeCommitHash(j.ref) && PartOf(store, net.remote.store) && store.head == Some(tip)
    requires Whole(store, tip)
    requires Wf(store.commits[tip].tree.entries) && GoodSubdir(store.commits[tip].tree.entries, j.subdir, segs)
    requires st.files == Worktree(store, stamp)
    ensures Prepared(net, st, j, store, tracked, stamp) == Stage(st, None, stamp)
    ensures tip in net.remote.store.commits && st.files == FilesOf(net.remote, tip, stamp)
  {
    var es := store.commits[tip].tree.entries;
    SameFiles(es, store.blobs, net.remote.store.blobs, stamp);
    if j.subdir != "" {
      DirectoryThere(es, store.blobs, j.subdir, segs, stamp);
    }
  }

  lemma SparseLands(net: Network, st: State, j: Job, auth: Auth, i: nat, segs: seq<string>)
    requires Honest(net, j.ctx) && AnswersNames(net, auth) && Named(net.remote, j)
    requires FirstAt(net.remote, CloneAttempts(j.ref), i)
    requires j.subdir != "" && st.files == map[]
    requires var tip := Target(net.remote, CloneAttempts(j.ref)[i]).value;
             tip in net.remote.store.commits && GoodSubdir(net.remote.store.commits[tip].tree.entries, j.subdir, segs)
    ensures var s := SparseDownload(net, st, j, auth);
            if s.err.Some? then SparseUnsupported in s.err.value
            else s.st.files == Restrict(FilesOf(net.remote, Target(net.remote, CloneAttempts(j.ref)[i]).value,
              s.stamp), segs)
  {
    NamedAttempts(j.ref);
    FirstExisting(net, j.ctx, State(st.clock, map[]), SparseReq(j, auth), CloneAttempts(j.ref), true, {}, i);
    var c := SparseClone(net, st.clock, j, auth);
    if c.err.None? {
      var tip := Target(net.remote, CloneAttempts(j.ref)[i]).value;
      assert SparseCommit(net, c.clock, c.store, j, auth) == Located(c.clock, c.store, tip, None);
      ConeWritten(net, State(c.clock, st.files), j, c.store, tip, segs, auth, st.clock);
    }
  }

  /** "Reference not found"; with no name the signal for an empty repository is passed on as it is. */
  ghost predicate MissingReported(j: Job, err: Option<Err>) {
    err == Some({RefNotFound}) || (j.ref == "" && err == Some({EmptyRemote}))
  }

  lemma NamedMissing(net: Network, st: State, j: Job, auth: Auth)
    requires AnswersNames(net, auth) && !LooksLikeCommitHash(j.ref) && NoneOnRemote(net.remote, CloneAttempts(j.ref))
    ensures MissingReported(j, CloneAndPrepare(net, st, j, auth).err)
  {
    if j.ref == "" {
      assert CloneAttempts(j.ref)[0] in CloneAttempts(j.ref);
      HeadMissing(net, st, FullReq(j, auth), false);
      HeadMissing(net, State(st.clock, map[]), SparseReq(j, auth), true);
    } else {
      NamedAttempts(j.ref);
      NoneExisting(net, st, FullReq(j, auth), CloneAttempts(j.ref), false, {});
      NoneExisting(net, State(st.clock, map[]), SparseReq(j, auth), CloneAttempts(j.ref), true, {});
    }
  }

  lemma HeadMissing(net: Network, st: State, req: CloneReq, bare: bool)
    requires AnswersNames(net, req.auth) && net.remote.head.None?
    ensures CloneByAttempts(net, st, req, [Attempt("", true)], bare).result in {NoRepo({RefNotFound}),
            NoRepo({EmptyRemote})}
  {
    var r := req.(attempt := Attempt("", true));
    var reply := net.clone(st.clock, r);
    assert AnswersName(net.remote, r, reply);
    assert [Attempt("", true)][1..] == [];
    var after := State(st.clock + 1, Left(reply.left, st.clock));
    assert TryAttempts(net, after, req, [], bare, {RefNotFound}).result == AllMissing({RefNotFound});
  }

  /**
   * For every reference that does not look like a commit hash, none included, with or without a
   * subdirectory, and whichever way the server signals a missing one: the download leaves the files of
   * the first spelling that exists, or those in the cone of the subdirectory, and when no spelling
   * exists it fails with "reference not found", or for HEAD as the server put it.
   */
  lemma NamedReference(net: Network, st: State, j: Job, auth: Auth, segs: seq<string>)
    requires Honest(net, j.ctx) && AnswersNames(net, auth) && Named(net.remote, j) && st.files == map[]
    ensures forall i: nat :: FirstAt(net.remote, CloneAttempts(j.ref), i) ==>
              LandsAt(net, st, j, auth, Target(net.remote, CloneAttempts(j.ref)[i]).value, segs)
    ensures NoneOnRemote(net.remote, CloneAttempts(j.ref)) ==> MissingReported(j, CloneAndPrepare(net, st, j, auth).err)
  {
    forall i: nat | FirstAt(net.remote, CloneAttempts(j.ref), i)
      ensures LandsAt(net, st, j, auth, Target(net.remote, CloneAttempts(j.ref)[i]).value, segs)
    {
      NamedLands(net, st, j, auth, i, segs);
    }
    if NoneOnRemote(net.remote, CloneAttempts(j.ref)) {
      NamedMissing(net, st, j, auth);
    }
  }

  /** The tip's files, or those in the cone; a subdirectory must be one of the tip's. */
  ghost predicate LandsAt(net: Network, st: State, j: Job, auth: Auth, tip: Hash, segs: seq<string>) {
    var s := CloneAndPrepare(net, st, j, auth);
    && tip in net.remote.store.commits
    && (GoodSubdir(net.remote.store.commits[tip].tree.entries, j.subdir, segs) ==>
          && s.err.None?
          && var full := FilesOf(net.remote, tip, s.stamp);
             s.st.files == full || (j.subdir != "" && s.st.files == Restrict(full, segs)))
  }

  lemma NamedLands(net: Network, st: State, j: Job, auth: Auth, i: nat, segs: seq<string>)
    requires Honest(net, j.ctx) && AnswersNames(net, auth) && Named(net.remote, j) && st.files == map[]
    requires FirstAt(net.remote, CloneAttempts(j.ref), i)
    ensures LandsAt(net, st, j, auth, Target(net.remote, CloneAttempts(j.ref)[i]).value, segs)
  {
    var tip := Target(net.remote, CloneAttempts(j.ref)[i]).value;
    TipHeld(net, st, j, auth, i);
    if GoodSubdir(net.remote.store.commits[tip].tree.entries, j.subdir, segs) {
      if j.subdir == "" {
        FullLands(net, st, j, auth, i, segs);
      } else {
        SparseLands(net, st, j, auth, i, segs);
        var s := SparseDownload(net, st, j, auth);
        if s.err.Some? {
          FullLands(net, State(s.st.clock, map[]), j, auth, i, segs);
        }
      }
    }
  }

  /** The remote has the commit of a reference that can be cloned. */
  lemma TipHeld(net: Network, st: State, j: Job, auth: Auth, i: nat)
    requires Honest(net, j.ctx) && AnswersNames(net, auth) && Named(net.remote, j)
    requires FirstAt(net.remote, CloneAttempts(j.ref), i)
    ensures Target(net.remote, CloneAttempts(j.ref)[i]).value in net.remote.store.commits
  {
    NamedAttempts(j.ref);
    FirstExisting(net, j.ctx, st, FullReq(j, auth), CloneAttempts(j.ref), false, {}, i);
  }

  /** The reference a download ends up at. */
  ghost predicate ClonesAt(remote: Remote, ref: string, name: string) {
    exists i: nat :: FirstAt(remote, CloneAttempts(ref), i) && CloneAttempts(ref)[i].refName == name
  }

  /**
   * A name's meaning: qualified names mean themselves; of others the branch comes first, then the
   * tag, then any other namespace.
   */
  predicate Meant(remote: Remote, ref: string, name: string) {
    if "refs/" <= ref then name == ref && name in remote.refs
    else if "tags/" <= ref || "heads/" <= ref then name == "refs/" + ref && name in remote.refs
    else if HEADS + ref in remote.refs then name == HEADS + ref
    else if TAGS + ref in remote.refs then name == TAGS + ref
    else '/' in ref && name == "refs/" + ref && name in remote.refs
  }

  lemma NamePrecedence(remote: Remote, ref: string, name: string)
    requires ref != "" && !LooksLikeCommitHash(ref)
    ensures ClonesAt(remote, ref, name) <==> Meant(remote, ref, name)
  {
    if QualifiedRefName(ref).Some? {
      QualifiedMeans(remote, ref, name);
    } else {
      BareMeans(remote, ref, name);
    }
  }

  lemma QualifiedMeans(remote: Remote, ref: string, name: string)
    requires ref != "" && !LooksLikeCommitHash(ref) && QualifiedRefName(ref).Some?
    ensures ClonesAt(remote, ref, name) <==> Meant(remote, ref, name)
  {
    var full := QualifiedRefName(ref).value;
    assert "tags/" <= ref ==> TAGS + ref[5..] == "refs/" + ref;
    assert "heads/" <= ref ==> HEADS + ref[6..] == "refs/" + ref;
    assert CloneAttempts(ref) == [Attempt(full, true)] && full != "";
    assert FirstAt(remote, CloneAttempts(ref), 0) <==> full in remote.refs;
  }

  lemma BareMeans(remote: Remote, ref: string, name: string)
    requires ref != "" && !LooksLikeCommitHash(ref) && QualifiedRefName(ref).None?
    ensures ClonesAt(remote, ref, name) <==> Meant(remote, ref, name)
  {
    var attempts := CloneAttempts(ref);
    NamedAttempts(ref);
    assert FirstAt(remote, attempts, 0) <==> HEADS + ref in remote.refs;
    assert FirstAt(remote, attempts, 1) <==> HEADS + ref !in remote.refs && TAGS + ref in remote.refs;
    assert FirstAt(remote, attempts, 2) <==>
           '/' in ref && HEADS + ref !in remote.refs && TAGS + ref !in remote.refs && "refs/" + ref in remote.refs;
  }
}
