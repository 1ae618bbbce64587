/** When one stage makes way for the next, and when its failure settles the matter (cloneAndPrepare). */
module Stages {
  import opened Options
  import opened Strings
  import opened Checkout
  import opened Refs
  import opened Remotes
  import opened Engine

  /** The pinned stage's one request. */
  function PinnedReq(j: Job, auth: Auth): FetchReq {
    var depth := if j.depth > 0 then j.depth else if j.configDepth > 0 then j.configDepth else 1;
    FetchReq({ToLower(j.ref)}, NoFilter, depth, auth)
  }

  /** No failure on the wire is one of these. */
  predicate OwnMark(failure: Failure) {
    failure in {Some(WantsRestricted), Some(SparseUnsupported), Some(PinnedUnsupported), Some(ObjectNotFound)}
  }

  /** Failures of a request by hash that no full clone can mend; restricted servers may refuse what they have. */
  predicate Settles(failure: Failure, refused: bool, restricted: bool, done: bool) {
    || done
    || failure in {Some(AuthRequired), Some(AuthorizationFailed)}
    || (&& !(refused && restricted)
        && failure in {Some(RefNotFound), Some(EmptyRemote), Some(NotOurRef), Some(Canceled), Some(DeadlineExceeded)})
  }

  /** What the caller sees of such a failure: that the commit is missing, when the remote says so. */
  function Reported(failure: Failure, refused: bool, restricted: bool): Err {
    if refused && restricted then ErrOf(failure) + {WantsRestricted}
    else if failure in {Some(EmptyRemote), Some(NotOurRef)} then {RefNotFound}
    else ErrOf(failure)
  }

  /**
   * From a full hash, by what the server answers when it is asked for the commit: the commit, if it came
   * with everything it needs; otherwise a full clone into an emptied directory, except where the failure
   * settles the matter.
   */
  lemma PinnedMakesWay(net: Network, st: State, j: Job, auth: Auth)
    requires LooksLikeCommitHash(j.ref) && |j.ref| == 40
    ensures match net.fetch(st.clock, PinnedReq(j, auth))
            case Fetched(got) => Served(net, st, j, auth, got)
            case HandshakeFailed(failure) => OwnMark(failure) || FailedToServe(net, st, j, auth, failure, false)
            case FetchFailed(failure) => OwnMark(failure) || FailedToServe(net, st, j, auth, failure, true)
  {
    AnsweredByHash(net, st.clock, j, auth);
    match net.fetch(st.clock, PinnedReq(j, auth))
    case Fetched(got) =>
    case HandshakeFailed(failure) =>
      if !OwnMark(failure) {
        FailureMeans(failure, false, net.remote.restricted, j.ctx(st.clock + 1));
      }
    case FetchFailed(failure) =>
      if !OwnMark(failure) {
        FailureMeans(failure, true, net.remote.restricted, j.ctx(st.clock + 1));
      }
  }

  /** Names and short hashes are not fetched by themselves. */
  lemma OnlyFullHashesPinned(net: Network, st: State, j: Job, auth: Auth)
    requires !LooksLikeCommitHash(j.ref) || |j.ref| != 40
    ensures WithoutSparse(net, st, j, auth) == FullClone(net, st, j, auth)
    ensures j.subdir == "" ==> CloneAndPrepare(net, st, j, auth) == FullClone(net, st, j, auth)
  {}

  lemma AnsweredByHash(net: Network, clock: nat, j: Job, auth: Auth)
    ensures var req := PinnedReq(j, auth);
            var f := FetchCommitByHash(net, clock, NO_OBJECTS, ToLower(j.ref), NoFilter, req.depth, auth);
            && f.clock == clock + 1
            && match net.fetch(clock, req)
               case Fetched(got) => f.err.None? && f.store == got.(head := None)
               case HandshakeFailed(failure) => f.err == Some(Missing(failure, false, net.remote.restricted))
               case FetchFailed(failure) => f.err == Some(Missing(failure, true, net.remote.restricted))
  {
    assert forall failure :: ErrOf(failure) + {} == ErrOf(failure);
  }

  ghost predicate Served(net: Network, st: State, j: Job, auth: Auth, got: Store) {
    var h, s := ToLower(j.ref), WithoutSparse(net, st, j, auth);
    if h in got.commits && CompleteIn(got, got.commits[h].tree) then
      s == Prepared(net, State(st.clock + 1, st.files), j, got.(head := None), {}, st.clock)
    else s == FullClone(net, State(st.clock + 1, map[]), j, auth)
  }

  ghost predicate FailedToServe(net: Network, st: State, j: Job, auth: Auth, failure: Failure, refused: bool) {
    var s := WithoutSparse(net, st, j, auth);
    if Settles(failure, refused, net.remote.restricted, j.ctx(st.clock + 1)) then
      s == Stage(State(st.clock + 1, st.files), Some(Reported(failure, refused, net.remote.restricted)), st.clock)
    else s == FullClone(net, State(st.clock + 1, map[]), j, auth)
  }

  /** The failure as the fetch by hash passes it on. */
  function Missing(failure: Failure, refused: bool, restricted: bool): Err {
    var raw := ErrOf(failure) + if refused && restricted then {WantsRestricted} else {};
    if CommitMissingOnRemote(raw) then {RefNotFound} else raw
  }

  lemma FailureMeans(failure: Failure, refused: bool, restricted: bool, done: bool)
    requires !OwnMark(failure)
    ensures var err := Missing(failure, refused, restricted);
            && PinnedUnsupported !in err
            && (Settles(failure, refused, restricted, done) ==>
                  PinnedErr(err, done) == err == Reported(failure, refused, restricted))
            && (!Settles(failure, refused, restricted, done) ==> PinnedErr(err, done) == err + {PinnedUnsupported})
  {}

  /** The first contact for a subdirectory: it settles the matter exactly by one of the four sentinels. */
  lemma AnchorMakesWay(net: Network, st: State, j: Job, auth: Auth)
    requires j.subdir != ""
    ensures var c := CloneByAttempts(net, State(st.clock, map[]), SparseReq(j, auth), SparseAttempts(j), true);
            c.result.NoRepo? && SparseUnsupported !in c.result.err ==>
              CloneAndPrepare(net, st, j, auth) ==
                if c.result.err !! {RefNotFound, EmptyRemote, Canceled, DeadlineExceeded}
                then WithoutSparse(net, State(c.st.clock, map[]), j, auth)
                else Stage(State(c.st.clock, st.files), Some(c.result.err), st.clock)
  {
  }
}
