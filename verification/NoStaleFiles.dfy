/** A successful download leaves files of one attempt only: the one that succeeded. */
module NoStaleFiles {
  import opened Options
  import opened GitObjects
  import opened Cone
  import opened Checkout
  import opened Archive
  import opened Refs
  import opened Remotes
  import opened Engine

  ghost predicate AllStamped(files: Files, stamp: nat) {
    forall k :: k in files ==> files[k].stamp == stamp
  }

  /** The stage started no earlier than start, moved the clock on, and if it succeeded its files are all its own. */
  ghost predicate OwnFiles(start: nat, s: Stage) {
    && start < s.st.clock
    && (s.err.None? ==> start <= s.stamp < s.st.clock && AllStamped(s.st.files, s.stamp))
  }

  lemma {:induction false} AttemptsStamped(
    net: Network, st: State, req: CloneReq, attempts: seq<Attempt>, bare: bool, last: Err)
    ensures var c := TryAttempts(net, st, req, attempts, bare, last);
            && st.clock + (if attempts == [] then 0 else 1) <= c.st.clock
            && (c.result.Repo? ==> st.clock <= c.stamp < c.st.clock && AllStamped(c.st.files, c.stamp))
    decreases attempts
  {
    if attempts != [] {
      var reply := net.clone(st.clock, req.(attempt := attempts[0]));
      if reply.CloneFailed? && MissingRef(attempts[0], ErrOf(reply.failure)) {
        AttemptsStamped(net, State(st.clock + 1, Left(reply.left, st.clock)), req, attempts[1..], bare,
          ErrOf(reply.failure));
      }
    }
  }

  lemma {:induction false} WriteAllStamped(
    files: Files, root: string, blobs: map<Hash, Bytes>, entries: seq<SparseEntry>, stamp: nat)
    requires AllStamped(files, stamp)
    ensures AllStamped(WriteAll(files, root, blobs, entries, stamp).files, stamp)
    decreases entries
  {
    if entries != [] {
      WriteAllStamped(files, root, blobs, entries[..|entries| - 1], stamp);
    }
  }

  lemma PreparedStamped(net: Network, st: State, j: Job, store: Store, tracked: set<string>, stamp: nat)
    requires AllStamped(st.files, stamp)
    ensures st.clock <= Prepared(net, st, j, store, tracked, stamp).st.clock
    ensures AllStamped(Prepared(net, st, j, store, tracked, stamp).st.files, stamp)
    ensures Prepared(net, st, j, store, tracked, stamp).stamp == stamp
  {}

  lemma FullStamped(net: Network, st: State, j: Job, auth: Auth)
    ensures OwnFiles(st.clock, FullClone(net, st, j, auth))
  {
    AttemptsStamped(net, st, FullReq(j, auth), CloneAttempts(j.ref), false, {});
    var c := CloneByAttempts(net, st, FullReq(j, auth), CloneAttempts(j.ref), false);
    if c.result.Repo? {
      PreparedStamped(net, c.st, j, c.result.store, c.st.files.Keys, c.stamp);
    }
  }

  lemma WithoutSparseStamped(net: Network, st: State, j: Job, auth: Auth)
    requires st.files == map[]
    ensures OwnFiles(st.clock, WithoutSparse(net, st, j, auth))
  {
    var p := PinnedCommitClone(net, st.clock, j, auth);
    if !PinnedEligible(j) {
      FullStamped(net, st, j, auth);
    } else if p.err.None? {
      PreparedStamped(net, State(p.clock, st.files), j, p.store, {}, st.clock);
    } else if PinnedUnsupported in p.err.value {
      FullStamped(net, State(p.clock, map[]), j, auth);
    }
  }

  lemma SparseWriteStamped(
    net: Network, st: State, j: Job, store: Store, files: seq<SparseEntry>, auth: Auth, stamp: nat)
    requires st.files == map[]
    ensures var s := SparseWrite(net, st, j, store, files, auth, stamp);
            st.clock <= s.st.clock && AllStamped(s.st.files, stamp) && s.stamp == stamp
  {
    WriteAllStamped(map[], j.root, FetchBlobs(net, st.clock, store, files, auth).store.blobs, files, stamp);
  }

  lemma SparseStamped(net: Network, st: State, j: Job, auth: Auth)
    requires st.files == map[]
    ensures OwnFiles(st.clock, SparseDownload(net, st, j, auth))
  {
    AttemptsStamped(net, State(st.clock, map[]), SparseReq(j, auth), SparseAttempts(j), true, {});
    var c := SparseClone(net, st.clock, j, auth);
    if c.err.None? {
      var l := SparseCommit(net, c.clock, c.store, j, auth);
      assert c.clock <= l.clock;
      var sel := Select(l.store.commits, l.store.trees, l.commit, j.subdir);
      if l.err.None? && sel.Some? {
        SparseWriteStamped(net, State(l.clock, st.files), j, l.store, sel.value.files, auth, st.clock);
      }
    }
  }

  lemma StageStamped(net: Network, st: State, j: Job, auth: Auth)
    requires st.files == map[]
    ensures OwnFiles(st.clock, CloneAndPrepare(net, st, j, auth))
  {
    if j.subdir == "" {
      WithoutSparseStamped(net, st, j, auth);
    } else {
      SparseStamped(net, st, j, auth);
      WithoutSparseStamped(net, State(SparseDownload(net, st, j, auth).st.clock, map[]), j, auth);
    }
  }

  /** Until a credential has been tried the directory is clean; a finished download's files are its own. */
  ghost predicate CleanWalk(start: nat, w: ChainWalk) {
    && start <= w.st.clock
    && (w.tried == [] ==> w.st.files == map[] && w.end != Downloaded)
    && (w.end == Downloaded ==> OwnFiles(start, Stage(w.st, None, w.stamp)))
  }

  lemma {:induction false} WalkStamped(net: Network, j: Job, w: ChainWalk, sources: seq<Source>, start: nat)
    requires CleanWalk(start, w)
    ensures CleanWalk(start, WalkChain(net, j, w, sources))
    decreases sources
  {
    if sources != [] && w.end == Walking {
      if sources[0].Offers? {
        StageStamped(net, State(w.st.clock, map[]), j, sources[0].auth);
      }
      WalkStamped(net, j, WalkOne(net, j, w, sources[0]), sources[1..], start);
    }
  }

  ghost predicate OwnRun(start: nat, r: Run) {
    && start <= r.st.clock
    && (r.done ==> start <= r.stamp < r.st.clock && AllStamped(r.st.files, r.stamp))
  }

  lemma GitStamped(c: Candidate, st: State, j: Job)
    requires st.files == map[]
    ensures var g := GitDownload(c, st, j).stage;
            st.clock <= g.st.clock && (g.err.None? ==> OwnFiles(st.clock, g))
  {
    if c.guard.None? {
      WalkStamped(c.net, j, Start(st), c.sources, st.clock);
      var w := WalkChain(c.net, j, Start(st), c.sources);
      if w.tried == [] {
        StageStamped(c.net, w.st, j, Anonymous);
      }
    }
  }

  lemma {:induction false} CandidatesStamped(st: State, j: Job, candidates: seq<Candidate>, first: bool, errs: Err)
    requires first ==> st.files == map[]
    ensures OwnRun(st.clock, TryCandidates(st, j, candidates, first, errs))
    decreases candidates
  {
    if candidates != [] {
      var c := candidates[0];
      var clean := if first then st else State(st.clock, map[]);
      if c.probe.Some? {
        CandidatesStamped(clean, j, candidates[1..], false, errs + c.probe.value);
      } else {
        GitStamped(c, clean, j);
        var g := GitDownload(c, clean, j).stage;
        if g.err.Some? && !DefinitiveCloneError(g.err.value) {
          CandidatesStamped(g.st, j, candidates[1..], false, errs + g.err.value);
        }
      }
    }
  }

  lemma {:induction false} StepsStamped(
    x: Extraction, entries: seq<TarEntry>, root: string, subdir: string, limited: bool, stamp: nat)
    requires AllStamped(x.files, stamp)
    ensures AllStamped(Steps(x, entries, root, subdir, limited, stamp).files, stamp)
    decreases entries
  {
    if entries != [] {
      StepsStamped(x, entries[..|entries| - 1], root, subdir, limited, stamp);
      StepStamped(Steps(x, entries[..|entries| - 1], root, subdir, limited, stamp), entries[|entries| - 1], root,
        subdir, limited, stamp);
    }
  }

  lemma StepStamped(x: Extraction, e: TarEntry, root: string, subdir: string, limited: bool, stamp: nat)
    requires AllStamped(x.files, stamp)
    ensures AllStamped(Step(x, e, root, subdir, limited, stamp).files, stamp)
  {}

  /**
   * No stale files. Whatever the candidates, their credentials, the stages each runs through and
   * what every failed attempt leaves behind: a download into an empty directory that reports
   * success leaves only files written by the attempt that succeeded, and that attempt ran during
   * this download.
   */
  lemma NoFileSurvivesAFailedAttempt(st: State, j: Job, candidates: seq<Candidate>, platform: Platform)
    requires st.files == map[]
    ensures OwnRun(st.clock, Download(st, j, candidates, platform))
  {
    CandidatesStamped(st, j, candidates, true, {});
    var r := TryCandidates(st, j, candidates, true, {});
    var entries := platform(r.st.clock);
    if entries.Some? {
      StepsStamped(Archive.Fresh(map[], j.maxBytes), entries.value, j.root, j.subdir, j.maxBytes > 0, r.st.clock);
    }
  }

  /** Failed clones do litter: what the full clone of a hash leaves behind stays there, with that attempt's stamp. */
  lemma LeftoversStay(net: Network, st: State, j: Job, auth: Auth)
    requires LooksLikeCommitHash(j.ref) && net.clone(st.clock, FullReq(j, auth)).CloneFailed?
    ensures var s, left := FullClone(net, st, j, auth), net.clone(st.clock, FullReq(j, auth)).left;
            && s.err.Some? && s.st.clock == st.clock + 1 && s.st.files.Keys == left.Keys
            && forall k :: k in left ==> s.st.files[k].content == left[k] && s.st.files[k].stamp == st.clock
  {
    var req := FullReq(j, auth);
    assert req.(attempt := req.attempt) == req && CloneAttempts(j.ref) == [req.attempt];
    var reply := net.clone(st.clock, req);
    var after := State(st.clock + 1, Left(reply.left, st.clock));
    assert [req.attempt][1..] == [];
    assert TryAttempts(net, after, req, [], false, ErrOf(reply.failure)) ==
           Cloning(after, AllMissing(ErrOf(reply.failure)), after.clock);
  }
}
