/** The sparse path and the full clone search different commits for a short hash; when they agree. */
module ShortHash {
  import opened Options
  import opened Strings
  import opened Paths
  import opened GitObjects
  import opened Cone
  import opened Checkout
  import opened Refs
  import opened Remotes
  import opened Engine
  import opened Fallback
  import opened Verdicts

  predicate Short(j: Job) {
    LooksLikeCommitHash(j.ref) && |j.ref| != 40
  }

  /** What the sparse path takes the short hash for, once it has its trees; none if it fails. */
  ghost function SparseFinding(net: Network, clock: nat, j: Job, auth: Auth): Option<Hash> {
    var c := SparseClone(net, clock, j, auth);
    if c.err.Some? then None
    else
      var l := ResolvePinnedCommit(net, c.clock, c.store, j, auth);
      if l.err.Some? then None else Some(l.commit)
  }

  /** The commits a full clone searches. */
  ghost function FullCommits(net: Network, st: State, j: Job, auth: Auth): Option<map<Hash, Commit>> {
    var c := CloneByAttempts(net, st, FullReq(j, auth), CloneAttempts(j.ref), false);
    if c.result.Repo? then Some(c.result.store.commits) else None
  }

  // Each side's commits.

  lemma HistoryOnBranch(remote: Remote, from: Hash, to: Hash)
    requires OnBranchOrTag(remote, from) && ReachableFrom(remote, from, to)
    ensures OnBranchOrTag(remote, to)
  {
    var tip :| BranchOrTagTip(remote, tip) && Within(remote, tip, 0, from);
    var a: nat :| Reaches(remote.store.commits, tip, from, a);
    var b: nat :| Reaches(remote.store.commits, from, to, b);
    ReachesOn(remote.store.commits, tip, from, to, a, b);
  }

  /** The first commit the sparse path searches is HEAD alone. */
  lemma AnchorIsHead(net: Network, clock: nat, j: Job, auth: Auth)
    requires Honest(net, j.ctx) && Short(j) && SparseClone(net, clock, j, auth).err.None?
    ensures var store := SparseClone(net, clock, j, auth).store;
            store.head.Some? && store.head == net.remote.head && store.commits.Keys == {store.head.value}
            && PartOf(store, net.remote.store)
  {
    var req := SparseReq(j, auth);
    assert SparseAttempts(j) == [req.attempt] && req.(attempt := req.attempt) == req;
    var reply := net.clone(clock, req);
    assert HonestClone(net.remote, j.ctx, clock, req, reply);
    if reply.CloneFailed? {
      assert TryAttempts(net, State(clock, map[]), req, [req.attempt], true, {}).result.Repo? == false;
    } else {
      assert forall h :: h in reply.store.commits ==> Asked(net.remote, req, h);
    }
  }

  /** Then it is all of HEAD's history. */
  ghost predicate HistoryOf(remote: Remote, head: Hash, commits: map<Hash, Commit>) {
    && commits.Keys <= remote.store.commits.Keys
    && forall h :: h in commits <==> h in remote.store.commits && ReachableFrom(remote, head, h)
  }

  lemma GraphIsHistory(net: Network, clock: nat, store: Store, j: Job, auth: Auth, head: Hash)
    requires Honest(net, j.ctx) && store.commits.Keys == {head} && PartOf(store, net.remote.store)
    requires FetchObjects(net, clock, store, FetchReq({head}, TreeNone, 0, auth)).err.None?
    ensures HistoryOf(net.remote, head,
            FetchObjects(net, clock, store, FetchReq({head}, TreeNone, 0, auth)).store.commits)
  {
    var req := FetchReq({head}, TreeNone, 0, auth);
    var reply := net.fetch(clock, req);
    assert HonestFetch(net.remote, j.ctx, clock, req, reply);
    TipWithin(net.remote, 0, head);
    forall h ensures Wanted(net.remote, req.wants, h) <==> ReachableFrom(net.remote, head, h) {
      assert head in req.wants;
    }
  }

  ghost function MatchesOfHead(remote: Remote, j: Job): set<Hash>
    requires remote.head.Some?
  {
    set g | g in Matching(remote.store.commits, j.ref) && ReachableFrom(remote, remote.head.value, g)
  }

  /** The sparse path may take the hash for that commit: HEAD, or else the only match in HEAD's history. */
  ghost predicate SparseTakes(remote: Remote, j: Job, h: Hash) {
    && h in Matching(remote.store.commits, j.ref) && remote.head.Some?
    && (remote.head == Some(h) || MatchesOfHead(remote, j) == {h})
  }

  lemma SparseSearches(net: Network, clock: nat, j: Job, auth: Auth)
    requires Honest(net, j.ctx) && Short(j) && SparseFinding(net, clock, j, auth).Some?
    ensures SparseTakes(net.remote, j, SparseFinding(net, clock, j, auth).value)
  {
    AnchorIsHead(net, clock, j, auth);
    var c := SparseClone(net, clock, j, auth);
    var found := SparseFinding(net, clock, j, auth).value;
    if ResolveHash(c.store.commits, j.ref).Some? {
      assert StandsFor(c.store.commits, j.ref, found);
      assert found in Matching(c.store.commits, j.ref);
    } else {
      GraphIsHistory(net, c.clock, c.store, j, auth, c.store.head.value);
      var graph := FetchObjects(net, c.clock, c.store, FetchReq({c.store.head.value}, TreeNone, 0, auth)).store.commits;
      assert StandsFor(graph, j.ref, found) && found in Matching(graph, j.ref);
      assert MatchesOfHead(net.remote, j) == Matching(graph, j.ref);
    }
  }

  /** The full clone has what it is sure to bring. */
  ghost predicate HasBranches(remote: Remote, j: Job, commits: map<Hash, Commit>) {
    commits.Keys <= remote.store.commits.Keys && forall h :: SureToCome(remote, j, h) ==> h in commits
  }

  lemma FullSearches(net: Network, st: State, j: Job, auth: Auth)
    requires Honest(net, j.ctx) && Short(j) && FullCommits(net, st, j, auth).Some?
    ensures HasBranches(net.remote, j, FullCommits(net, st, j, auth).value)
  {
    var req := FullReq(j, auth);
    assert CloneAttempts(j.ref) == [req.attempt] && req.(attempt := req.attempt) == req;
    var reply := net.clone(st.clock, req);
    assert HonestClone(net.remote, j.ctx, st.clock, req, reply);
    if reply.CloneFailed? {
      assert TryAttempts(net, st, req, [req.attempt], false, {}).result.Repo? == false;
    }
  }

  // When they agree.

  /** When both find a commit it is the same one. */
  ghost predicate Agrees(net: Network, clock: nat, st: State, j: Job, a: Auth, b: Auth) {
    var sparse, full := SparseFinding(net, clock, j, a), FullCommits(net, st, j, b);
    sparse.Some? && full.Some? && ResolveHash(full.value, j.ref).Some? ==> ResolveHash(full.value, j.ref) == sparse
  }

  /** What each side may take the hash for differs. */
  ghost predicate Torn(remote: Remote, j: Job, x: Hash, y: Hash) {
    x != y && SparseTakes(remote, j, x) && FullTakes(remote, j, y)
  }

  ghost function MatchesInDepth(remote: Remote, j: Job): set<Hash> {
    set g | g in Matching(remote.store.commits, j.ref) && InDepth(remote, ResolveDepth(j), g)
  }

  /**
   * The only match in HEAD's history, and not HEAD, against the only one that branches and tags lead
   * to within the depth.
   */
  ghost predicate OnlyMatches(remote: Remote, j: Job, x: Hash, y: Hash) {
    && x != y && remote.head.Some? && remote.head != Some(x)
    && MatchesOfHead(remote, j) == {x} && MatchesInDepth(remote, j) == {y}
  }

  lemma TornMeans(remote: Remote, j: Job, x: Hash, y: Hash)
    ensures Torn(remote, j, x, y) <==> OnlyMatches(remote, j, x, y)
  {
    if Torn(remote, j, x, y) {
      TornIsOnly(remote, j, x, y);
    }
    if OnlyMatches(remote, j, x, y) {
      OnlyIsTorn(remote, j, x, y);
    }
  }

  /** HEAD is in its own history, and so is what lies within some depth of it. */
  lemma HeadMatches(remote: Remote, j: Job)
    requires remote.head.Some?
    ensures forall g ::
              g in Matching(remote.store.commits, j.ref) && Within(remote, remote.head.value, ResolveDepth(j), g) ==>
                g in MatchesOfHead(remote, j)
    ensures remote.head.value in Matching(remote.store.commits, j.ref) ==> remote.head.value in MatchesOfHead(remote, j)
  {
    TipWithin(remote, ResolveDepth(j), remote.head.value);
    assert forall g :: Within(remote, remote.head.value, ResolveDepth(j), g) ==>
        ReachableFrom(remote, remote.head.value, g);
  }

  lemma TornIsOnly(remote: Remote, j: Job, x: Hash, y: Hash)
    requires Torn(remote, j, x, y)
    ensures OnlyMatches(remote, j, x, y)
  {
    var head := remote.head.value;
    assert SureToCome(remote, j, head) && head != x;
    HeadMatches(remote, j);
    assert x in MatchesOfHead(remote, j) && y in MatchesInDepth(remote, j);
    assert forall g :: g in MatchesInDepth(remote, j) ==> SureToCome(remote, j, g);
  }

  lemma OnlyIsTorn(remote: Remote, j: Job, x: Hash, y: Hash)
    requires OnlyMatches(remote, j, x, y)
    ensures Torn(remote, j, x, y)
  {
    HeadMatches(remote, j);
    assert x in MatchesOfHead(remote, j) && y in MatchesInDepth(remote, j);
    forall g | g in Matching(remote.store.commits, j.ref) && SureToCome(remote, j, g) ensures g == y {
      assert g in MatchesInDepth(remote, j);
    }
  }

  /** HEAD is on a branch or tag, and no clone depth was asked for. */
  ghost predicate Nested(remote: Remote, j: Job) {
    ResolveDepth(j) == 0 && (remote.head.Some? ==> OnBranchOrTag(remote, remote.head.value))
  }

  /** Then nothing is torn: the full clone is sure to bring whatever the sparse path takes the hash for. */
  lemma NestedIsNotTorn(remote: Remote, j: Job, x: Hash, y: Hash)
    requires Nested(remote, j) && SparseTakes(remote, j, x)
    ensures SureToCome(remote, j, x) && !Torn(remote, j, x, y)
  {
    if remote.head != Some(x) {
      assert x in MatchesOfHead(remote, j);
      HistoryOnBranch(remote, remote.head.value, x);
    }
  }

  /**
   * Without a clone depth they always agree, because the sparse path searches a subset of the full
   * clone's commits: what it finds is there too, and is found unless there is a further match.
   */
  lemma SparseAgreesWithFull(net: Network, clock: nat, st: State, j: Job, a: Auth, b: Auth)
    requires Honest(net, j.ctx) && Short(j) && Nested(net.remote, j)
    requires SparseFinding(net, clock, j, a).Some? && FullCommits(net, st, j, b).Some?
    ensures var found, all := SparseFinding(net, clock, j, a).value, FullCommits(net, st, j, b).value;
            && found in Matching(all, j.ref)
            && (ResolveHash(all, j.ref) == if Matching(all, j.ref) == {found} then Some(found) else None)
    ensures Agrees(net, clock, st, j, a, b)
  {
    var found, all := SparseFinding(net, clock, j, a).value, FullCommits(net, st, j, b).value;
    SparseSearches(net, clock, j, a);
    FullSearches(net, st, j, b);
    NestedIsNotTorn(net.remote, j, found, found);
    var some := map[found := all[found]];
    assert Matching(some, j.ref) == {found};
    assert StandsFor(some, j.ref, found);
    ShortHashAgrees(some, all, j.ref);
  }

  /** So a full clone that succeeds leaves the files of the commit the sparse path found. */
  lemma FullLeavesFinding(net: Network, clock: nat, st: State, j: Job, a: Auth, b: Auth)
    requires Honest(net, j.ctx) && Short(j) && Nested(net.remote, j)
    requires forall h :: h in net.remote.store.commits ==> Wf(net.remote.store.commits[h].tree.entries)
    requires SparseFinding(net, clock, j, a).Some? && FullClone(net, st, j, b).err.None?
    ensures var found, s := SparseFinding(net, clock, j, a).value, FullClone(net, st, j, b);
            && found in net.remote.store.commits
            && s.st.files == TreeFiles(net.remote.store.commits[found].tree.entries, net.remote.store.blobs, s.stamp)
  {
    SparseAgreesWithFull(net, clock, st, j, a, b);
    FullLeavesResolved(net, st, j, b);
  }

  lemma FullLeavesResolved(net: Network, st: State, j: Job, auth: Auth)
    requires Honest(net, j.ctx) && Short(j) && FullClone(net, st, j, auth).err.None?
    requires forall h :: h in net.remote.store.commits ==> Wf(net.remote.store.commits[h].tree.entries)
    ensures FullCommits(net, st, j, auth).Some? && ResolveHash(FullCommits(net, st, j, auth).value, j.ref).Some?
    ensures var h, s := ResolveHash(FullCommits(net, st, j, auth).value, j.ref).value, FullClone(net, st, j, auth);
            && h in net.remote.store.commits
            && s.st.files == TreeFiles(net.remote.store.commits[h].tree.entries, net.remote.store.blobs, s.stamp)
  {
    var c := CloneByAttempts(net, st, FullReq(j, auth), CloneAttempts(j.ref), false);
    var store := c.result.store;
    ClonedPart(net, j.ctx, st, FullReq(j, auth), CloneAttempts(j.ref), false, {});
    var h := ResolveHash(store.commits, j.ref).value;
    CheckedOut(net, c.st, j, store, c.stamp, h);
    SameFiles(store.commits[h].tree.entries, store.blobs, net.remote.store.blobs, c.stamp);
  }

  lemma LocatedPart(net: Network, clock: nat, store: Store, j: Job, auth: Auth)
    requires Honest(net, j.ctx) && PartOf(store, net.remote.store)
    ensures PartOf(ResolvePinnedCommit(net, clock, store, j, auth).store, net.remote.store)
  {
    forall c: nat, s: Store, h: Hash | PartOf(s, net.remote.store)
      ensures PartOf(EnsureCommitTrees(net, c, s, h, auth).store, net.remote.store)
    {
      ByHash(net, j.ctx, c, s, h, BlobNone, 1, auth);
    }
    if store.head.Some? {
      FetchObjectsErr(net, j.ctx, clock, store, FetchReq({store.head.value}, TreeNone, 0, auth));
    }
  }

  /** A remote whose commits are whole, and a directory and subdirectory as they come from a URL. */
  ghost predicate Downloadable(remote: Remote, j: Job, segs: seq<string>) {
    && (forall h :: h in remote.store.commits ==> Whole(remote.store, h) && Wf(remote.store.commits[h].tree.entries))
    && Rooted(j.root) && CleanSegs(j.root) != []
    && if j.subdir == "" then segs == [] else |segs| > 0 && Names(segs) && j.subdir == Join(segs, '/')
  }

  /** A sparse download that succeeds leaves exactly the cone of the commit that was found, and no other's. */
  lemma SparseLeavesFinding(net: Network, st: State, j: Job, auth: Auth, segs: seq<string>)
    requires Honest(net, j.ctx) && Short(j) && Downloadable(net.remote, j, segs) && j.subdir != "" && st.files == map[]
    requires SparseDownload(net, st, j, auth).err.None?
    ensures SparseFinding(net, st.clock, j, auth).Some?
    ensures var s, found := SparseDownload(net, st, j, auth), SparseFinding(net, st.clock, j, auth).value;
            && SparseTakes(net.remote, j, found)
            && s.st.files == Restrict(
                 TreeFiles(net.remote.store.commits[found].tree.entries, net.remote.store.blobs, s.stamp), segs)
  {
    SparseSearches(net, st.clock, j, auth);
    var c := SparseClone(net, st.clock, j, auth);
    AnchorIsHead(net, st.clock, j, auth);
    LocatedPart(net, c.clock, c.store, j, auth);
    var l := ResolvePinnedCommit(net, c.clock, c.store, j, auth);
    var sel := Select(l.store.commits, l.store.trees, l.commit, j.subdir).value;
    SparseWritten(net, State(l.clock, st.files), j, l.store, l.commit, segs, sel, auth, st.clock);
  }

  /** The files of the commit, or those in the cone. */
  ghost predicate LeavesCommit(remote: Remote, j: Job, segs: seq<string>, h: Hash, s: Stage) {
    && h in remote.store.commits
    && var full := TreeFiles(remote.store.commits[h].tree.entries, remote.store.blobs, s.stamp);
       s.st.files == full || (j.subdir != "" && s.st.files == Restrict(full, segs))
  }

  /** So whatever a short hash downloads is a commit that one of the two paths may take it for. */
  lemma ShortLeavesTaken(net: Network, st: State, j: Job, auth: Auth, segs: seq<string>) returns (h: Hash)
    requires Honest(net, j.ctx) && Short(j) && Downloadable(net.remote, j, segs) && st.files == map[]
    requires CloneAndPrepare(net, st, j, auth).err.None?
    ensures SparseTakes(net.remote, j, h) || FullTakes(net.remote, j, h)
    ensures LeavesCommit(net.remote, j, segs, h, CloneAndPrepare(net, st, j, auth))
  {
    if j.subdir != "" && SparseDownload(net, st, j, auth).err.None? {
      SparseLeavesFinding(net, st, j, auth, segs);
      h := SparseFinding(net, st.clock, j, auth).value;
    } else {
      var from := if j.subdir == "" then st else State(SparseDownload(net, st, j, auth).st.clock, map[]);
      FullFinds(net, from, j, auth);
      FullLeavesResolved(net, from, j, auth);
      h := ResolveHash(FullCommits(net, from, j, auth).value, j.ref).value;
    }
  }

  lemma CheckedOut(net: Network, st: State, j: Job, store: Store, stamp: nat, h: Hash)
    requires LooksLikeCommitHash(j.ref) && ResolveHash(store.commits, j.ref) == Some(h) && h in store.commits
    requires Prepared(net, st, j, store, st.files.Keys, stamp).err.None?
    ensures BlobsPresent(store.blobs, store.commits[h].tree.entries)
    ensures Prepared(net, st, j, store, st.files.Keys, stamp).st.files ==
            TreeFiles(store.commits[h].tree.entries, store.blobs, stamp)
  {
    var files := TreeFiles(store.commits[h].tree.entries, store.blobs, stamp);
    assert (st.files - st.files.Keys) + files == files;
  }

  lemma ApartIsTorn(net: Network, clock: nat, st: State, j: Job, a: Auth, b: Auth)
    requires Honest(net, j.ctx) && Short(j) && !Agrees(net, clock, st, j, a, b)
    ensures exists x, y :: Torn(net.remote, j, x, y)
  {
    SparseSearches(net, clock, j, a);
    FullFinds(net, st, j, b);
    var x, y := SparseFinding(net, clock, j, a).value, ResolveHash(FullCommits(net, st, j, b).value, j.ref).value;
    assert Torn(net.remote, j, x, y);
  }

  // A network that makes the full clone take the hash for y.

  /**
   * Its clones of everything bring what they are sure to and y. It serves partial clones and the
   * commit graph only if graphs is set, nothing else by hash, and reports "reference not found" for
   * every submodule.
   */
  ghost predicate Yielding(net: Network, y: Hash, graphs: bool) {
    && (forall n: nat, req: CloneReq :: net.clone(n, req) == YieldingClone(net.remote, y, graphs, req))
    && (forall n: nat, req: FetchReq :: net.fetch(n, req) == YieldingFetch(net.remote, graphs, req))
    && (forall n: nat, h: Hash ::
          net.submodules(n, h) == if ListsSubmodule(net.remote, h) then Some(Some(RefNotFound)) else None)
  }

  ghost function YieldingClone(remote: Remote, y: Hash, graphs: bool, req: CloneReq): CloneReply {
    var c := CloneOf(remote, req);
    if c.CloneFailed? then c
    else if req.filtered && !graphs then CloneFailed(None, map[])
    else if Everything(req) && Asked(remote, req, y) && y in remote.store.commits then
      Cloned(c.store.(commits := c.store.commits[y := remote.store.commits[y]]))
    else c
  }

  ghost function YieldingFetch(remote: Remote, graphs: bool, req: FetchReq): FetchReply {
    if graphs && req.filter == TreeNone && req.auth in remote.accepted then
      var commits := map h | h in remote.store.commits && Wanted(remote, req.wants, h) :: remote.store.commits[h];
      Fetched(remote.store.(commits := commits, head := None))
    else FetchFailed(None)
  }

  lemma YieldingNetwork(remote: Remote, ctx: Context, y: Hash, graphs: bool) returns (net: Network)
    requires Sane(remote)
    ensures net.remote == remote && Yielding(net, y, graphs) && Honest(net, ctx)
  {
    net := Network(remote,
      (n: nat, req: CloneReq) => YieldingClone(remote, y, graphs, req),
      (n: nat, req: FetchReq) => YieldingFetch(remote, graphs, req),
      (n: nat, h: Hash) => if ListsSubmodule(remote, h) then Some(Some(RefNotFound)) else None);
    forall n: nat, req: CloneReq ensures HonestClone(remote, ctx, n, req, net.clone(n, req)) {
      CloneOfHonest(remote, ctx, n, req);
      YieldingHonest(remote, ctx, n, y, graphs, req);
    }
  }

  lemma YieldingHonest(remote: Remote, ctx: Context, n: nat, y: Hash, graphs: bool, req: CloneReq)
    requires HonestClone(remote, ctx, n, req, CloneOf(remote, req))
    ensures HonestClone(remote, ctx, n, req, YieldingClone(remote, y, graphs, req))
  {
    var c, t := CloneOf(remote, req), YieldingClone(remote, y, graphs, req);
    if t.Cloned? && t != c {
      forall h | Whole(c.store, h) ensures Whole(t.store, h) {}
    }
  }

  lemma YieldingSparse(net: Network, clock: nat, j: Job, auth: Auth, x: Hash, y: Hash)
    requires Yielding(net, y, true) && Sane(net.remote) && Short(j) && auth in net.remote.accepted
    requires SparseTakes(net.remote, j, x) && Honest(net, j.ctx)
    ensures SparseFinding(net, clock, j, auth) == Some(x)
  {
    var req, tip := SparseReq(j, auth), net.remote.head.value;
    assert SparseAttempts(j) == [req.attempt] && req.(attempt := req.attempt) == req;
    assert Advertised(net.remote, tip);
    var shown := Shown(net.remote, tip, req);
    assert net.clone(clock, req) == Cloned(shown);
    var c := SparseClone(net, clock, j, auth);
    assert c.err.None? && c.store == shown && shown.commits.Keys == {tip};
    assert Whole(net.remote.store, x);
    if x == tip {
      assert Matching(shown.commits, j.ref) == {x};
      assert StandsFor(shown.commits, j.ref, x);
    } else {
      YieldingGraph(net, c.clock, shown, j, auth, tip, x, y);
    }
  }

  lemma YieldingGraph(net: Network, clock: nat, shown: Store, j: Job, auth: Auth, tip: Hash, x: Hash, y: Hash)
    requires Yielding(net, y, true) && Short(j) && auth in net.remote.accepted && Honest(net, j.ctx)
    requires SparseTakes(net.remote, j, x) && net.remote.head == Some(tip) && x != tip
    requires tip in net.remote.store.commits && Whole(net.remote.store, x)
    requires shown.commits.Keys == {tip} && PartOf(shown, net.remote.store) && shown.head == Some(tip)
    requires shown.trees == net.remote.store.trees
    ensures var l := ResolvePinnedCommit(net, clock, shown, j, auth);
            l.err.None? && l.commit == x
  {
    var ask := FetchReq({tip}, TreeNone, 0, auth);
    assert net.fetch(clock, ask) == YieldingFetch(net.remote, true, ask);
    GraphIsHistory(net, clock, shown, j, auth, tip);
    var graph := FetchObjects(net, clock, shown, ask).store;
    OnlyMatch(net.remote, j, tip, x, shown.commits, graph.commits);
    assert graph.commits[x] == net.remote.store.commits[x];
  }

  lemma OnlyMatch(
    remote: Remote, j: Job, tip: Hash, x: Hash, anchor: map<Hash, Commit>, graph: map<Hash, Commit>)
    requires SparseTakes(remote, j, x) && remote.head == Some(tip) && x != tip && |j.ref| != 40
    requires tip in remote.store.commits && anchor.Keys == {tip} && HistoryOf(remote, tip, graph)
    ensures ResolveHash(anchor, j.ref).None? && ResolveHash(graph, j.ref) == Some(x)
  {
    TipWithin(remote, 0, tip);
    assert MatchesOfHead(remote, j) == {x} && tip !in MatchesOfHead(remote, j);
    assert Matching(anchor, j.ref) == {};
    assert forall h: Hash :: h in {h};
    assert forall h :: !StandsFor(anchor, j.ref, h);
    assert Matching(graph, j.ref) == MatchesOfHead(remote, j);
    assert StandsFor(graph, j.ref, x);
  }

  lemma YieldingFull(net: Network, st: State, j: Job, auth: Auth, y: Hash, graphs: bool)
    requires Yielding(net, y, graphs) && Sane(net.remote) && Short(j) && auth in net.remote.accepted
    requires FullTakes(net.remote, j, y)
    ensures FullCommits(net, st, j, auth).Some? && ResolveHash(FullCommits(net, st, j, auth).value, j.ref) == Some(y)
    ensures var c := CloneByAttempts(net, st, FullReq(j, auth), CloneAttempts(j.ref), false);
            c.result.store.commits == FullCommits(net, st, j, auth).value && Whole(c.result.store, y)
  {
    var req, tip := FullReq(j, auth), net.remote.head.value;
    assert CloneAttempts(j.ref) == [req.attempt] && req.(attempt := req.attempt) == req;
    assert Advertised(net.remote, tip) && Whole(net.remote.store, y);
    var shown := Shown(net.remote, tip, req);
    var all := shown.commits[y := net.remote.store.commits[y]];
    assert net.clone(st.clock, req) == Cloned(shown.(commits := all));
    assert CloneByAttempts(net, st, req, [req.attempt], false).result == Repo(shown.(commits := all));
    assert forall g :: g in Matching(all, j.ref) ==> g == y by {
      assert forall g :: g in shown.commits ==> g in net.remote.store.commits && SureToCome(net.remote, j, g);
    }
    assert Matching(all, j.ref) == {y};
    assert StandsFor(all, j.ref, y);
  }

  /** Every honest network over this remote makes them agree. */
  ghost predicate AlwaysAgree(remote: Remote, j: Job) {
    forall net: Network, clock: nat, st: State, a: Auth, b: Auth :: net.remote == remote && Honest(net, j.ctx) ==>
      Agrees(net, clock, st, j, a, b)
  }

  /**
   * Whatever the remote answers, the two never take a short hash for different commits exactly when
   * there are no two for which they may take it: one HEAD or the only match in its history, the other
   * the only match among what the full clone is sure to bring. That is so without a clone depth.
   */
  lemma ShortHashExact(remote: Remote, j: Job, auth: Auth)
    requires Short(j) && Sane(remote) && auth in remote.accepted
    ensures AlwaysAgree(remote, j) <==> !exists x, y :: Torn(remote, j, x, y)
    ensures Nested(remote, j) ==> AlwaysAgree(remote, j)
  {
    if exists x, y :: Torn(remote, j, x, y) {
      var x, y :| Torn(remote, j, x, y);
      if Nested(remote, j) {
        NestedIsNotTorn(remote, j, x, y);
      }
      var net := YieldingNetwork(remote, j.ctx, y, true);
      var st := State(0, map[]);
      YieldingSparse(net, 0, j, auth, x, y);
      YieldingFull(net, st, j, auth, y, true);
      assert !Agrees(net, 0, st, j, auth, auth);
    } else {
      forall net: Network, clock: nat, st: State, a: Auth, b: Auth | net.remote == remote && Honest(net, j.ctx)
        ensures Agrees(net, clock, st, j, a, b)
      {
        if !Agrees(net, clock, st, j, a, b) {
          ApartIsTorn(net, clock, st, j, a, b);
        }
      }
    }
  }

  // Verdicts on short hashes.

  /**
   * For a short hash: no verdict on it is ever wrong exactly when HEAD resolves and no submodule of a
   * commit it may be checked out as is to be initialised, unless the remote has no references or
   * nothing that matches.
   */
  lemma ShortVerdictsExact(remote: Remote, j: Job, auth: Auth)
    requires Short(j) && auth in remote.accepted && forall n :: !j.ctx(n)
    requires remote.head.Some? ==> Sane(remote)
    ensures VerdictsSound(remote, j) <==>
            || remote.refs == map[]
            || Matching(remote.store.commits, j.ref) == {}
            || (remote.head.Some? && (j.recurse ==> forall h :: FullTakes(remote, j, h) ==> !ListsSubmodule(remote, h)))
  {
    if Reliable(remote, j) {
      SoundRemote(remote, j);
    } else if remote.head.None? {
      var net := GrudgingNetwork(remote, j.ctx, None, auth);
      ShortMisled(net, State(0, map[]), j, auth);
      assert net.remote == remote;
    } else {
      var h :| FullTakes(remote, j, h) && ListsSubmodule(remote, h);
      var net := YieldingNetwork(remote, j.ctx, h, false);
      ShortSubmoduleMisleads(net, State(0, map[]), j, auth, h);
      assert net.remote == remote;
    }
  }

  lemma ShortMisled(net: Network, st: State, j: Job, auth: Auth)
    requires Grudging(net, None, auth) && Short(j) && net.remote.head.None?
    ensures CloneAndPrepare(net, st, j, auth).err == Some({RefNotFound})
  {
    GrudgingClones(net, st, j, auth, None, auth);
  }

  lemma ShortSubmoduleMisleads(net: Network, st: State, j: Job, auth: Auth, h: Hash)
    requires Yielding(net, h, false) && Sane(net.remote) && Short(j) && auth in net.remote.accepted
    requires FullTakes(net.remote, j, h) && j.recurse && ListsSubmodule(net.remote, h)
    ensures CloneAndPrepare(net, st, j, auth).err == Some({RefNotFound})
  {
    ShortFullMisleads(net, st, j, auth, h);
    YieldingStepsAside(net, st, j, auth, h);
    ShortFullMisleads(net, State(SparseDownload(net, st, j, auth).st.clock, map[]), j, auth, h);
  }

  lemma YieldingStepsAside(net: Network, st: State, j: Job, auth: Auth, h: Hash)
    requires Yielding(net, h, false) && Short(j) && auth in net.remote.accepted && net.remote.head.Some?
    ensures SparseDownload(net, st, j, auth).err == Some({SparseUnsupported})
  {
    var req := SparseReq(j, auth);
    assert SparseAttempts(j) == [req.attempt] && req.(attempt := req.attempt) == req;
    assert net.clone(st.clock, req) == CloneFailed(None, map[]);
    assert TryAttempts(net, State(st.clock, map[]), req, [req.attempt], true, {}).result == NoRepo({});
    assert {} + {SparseUnsupported} == {SparseUnsupported};
  }

  lemma ShortFullMisleads(net: Network, st: State, j: Job, auth: Auth, h: Hash)
    requires Yielding(net, h, false) && Sane(net.remote) && Short(j) && auth in net.remote.accepted
    requires FullTakes(net.remote, j, h) && j.recurse && ListsSubmodule(net.remote, h)
    ensures FullClone(net, st, j, auth).err == Some({RefNotFound})
  {
    YieldingFull(net, st, j, auth, h, false);
    var c := CloneByAttempts(net, st, FullReq(j, auth), CloneAttempts(j.ref), false);
    assert CheckoutCommit(net, c.st, j, c.result.store, c.st.files.Keys, c.stamp).err == Some({RefNotFound});
  }
}
