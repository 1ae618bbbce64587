/** How the credential chain of a remote is walked (gitDownload in protocols/git/git.go). */
module CredentialWalk {
  import opened Options
  import opened Remotes
  import opened Engine

  /** The credentials a list of sources has to offer, in order. */
  function Offered(sources: seq<Source>): seq<Auth> {
    if sources == [] then []
    else
      var s := sources[|sources| - 1];
      Offered(sources[..|sources| - 1]) + if s.Offers? then [s.auth] else []
  }

  predicate NoneBroken(sources: seq<Source>) {
    forall s :: s in sources ==> !s.Broken?
  }

  /** Every failure is a rejected credential, save the last when it stopped the walk. */
  predicate Rejections(errs: seq<Err>, end: WalkEnd) {
    if errs == [] then end != Stopped
    else
      && (forall i :: 0 <= i < |errs| - 1 ==> AuthFailure(errs[i]))
      && (AuthFailure(errs[|errs| - 1]) <==> end != Stopped)
  }

  /** Sources gone through: only the last can have broken, and a credential ended the walk otherwise. */
  predicate Ended(done: seq<Source>, end: WalkEnd) {
    if end.BadSource? then done != [] && done[|done| - 1] == Broken(end.err) && NoneBroken(done[..|done| - 1])
    else NoneBroken(done) && (end != Walking ==> done != [] && done[|done| - 1].Offers?)
  }

  /** A walk that has gone through the sources in done. */
  ghost predicate WentThrough(w: ChainWalk, done: seq<Source>) {
    && w.resolved == |done| && w.tried == Offered(done)
    && |w.tried| == |w.errs| + (if w.end == Downloaded then 1 else 0)
    && Rejections(w.errs, w.end) && Ended(done, w.end)
  }

  lemma OneMore(net: Network, j: Job, w: ChainWalk, done: seq<Source>, source: Source)
    requires WentThrough(w, done) && w.end == Walking
    ensures WentThrough(WalkOne(net, j, w, source), done + [source])
  {
    var all, v := done + [source], WalkOne(net, j, w, source);
    assert all[..|done|] == done;
    assert forall s :: s in all <==> s in done || s == source;
    if |v.errs| > |w.errs| {
      assert v.errs == w.errs + [v.errs[|w.errs|]];
    }
  }

  lemma {:induction false} ChainThrough(net: Network, j: Job, w: ChainWalk, done: seq<Source>, rest: seq<Source>)
    requires WentThrough(w, done)
    ensures var v := WalkChain(net, j, w, rest);
            && |done| <= v.resolved <= |done + rest| && WentThrough(v, (done + rest)[..v.resolved])
            && (v.end == Walking ==> v.resolved == |done + rest|)
    decreases rest
  {
    if rest == [] || w.end != Walking {
      assert (done + rest)[..|done|] == done;
    } else {
      OneMore(net, j, w, done, rest[0]);
      assert done + [rest[0]] + rest[1..] == done + rest;
      ChainThrough(net, j, WalkOne(net, j, w, rest[0]), done + [rest[0]], rest[1..]);
    }
  }

  /**
   * The walk. The credentials tried are those offered by the sources resolved, a prefix of the chain;
   * every failure but the last is a rejected credential and no source but the last was broken, so a
   * source is resolved only once every earlier one declined or was rejected; and the walk goes to
   * the end of the chain unless a download succeeded, a source broke, or a failure was of another kind.
   */
  lemma ChainIsLazy(net: Network, j: Job, st: State, sources: seq<Source>)
    ensures var w := WalkChain(net, j, Start(st), sources);
            && w.resolved <= |sources| && w.tried == Offered(sources[..w.resolved])
            && Rejections(w.errs, w.end) && Ended(sources[..w.resolved], w.end)
            && (w.resolved == |sources| || w.end != Walking)
  {
    ChainThrough(net, j, Start(st), [], sources);
    assert [] + sources == sources;
  }

  lemma {:induction false} OfferedNone(sources: seq<Source>)
    ensures Offered(sources) == [] <==> forall s :: s in sources ==> !s.Offers?
    decreases sources
  {
    if sources != [] {
      var n := |sources| - 1;
      OfferedNone(sources[..n]);
      assert forall s :: s in sources <==> s in sources[..n] || s == sources[n];
    }
  }

  lemma SettleCases(net: Network, j: Job, w: ChainWalk)
    requires Rejections(w.errs, w.end) && |w.tried| == |w.errs| + (if w.end == Downloaded then 1 else 0)
    ensures var g := Settle(net, j, w);
            && (g.anonymous <==> w.end in {Walking, Stopped} && w.tried == [])
            && (g.rejected == if w.end == Walking && |w.tried| >= 2 then Some(|w.errs|) else None)
  {}

  /**
   * The outcome. The clone is anonymous exactly when every source declined. "Tried N credentials,
   * all rejected" is reported exactly when every source was resolved, none of them broke, they
   * offered N credentials, N is at least two, and the last of the N failures, like all the others,
   * is a rejected credential.
   */
  lemma ChainOutcome(c: Candidate, st: State, j: Job)
    requires c.guard.None?
    ensures var g := GitDownload(c, st, j);
            var w := WalkChain(c.net, j, Start(st), c.sources);
            && (g.anonymous <==> forall s :: s in c.sources ==> s.Declines?)
            && (g.rejected.Some? <==> w.end == Walking && |w.tried| >= 2)
            && (g.rejected.Some? ==>
                  && g.rejected.value == |Offered(c.sources)| == |w.errs|
                  && (forall s :: s in c.sources ==> !s.Broken?)
                  && forall i :: 0 <= i < |w.errs| ==> AuthFailure(w.errs[i]))
  {
    ChainThrough(c.net, j, Start(st), [], c.sources);
    assert [] + c.sources == c.sources;
    WalkOutcome(c.net, j, WalkChain(c.net, j, Start(st), c.sources), c.sources);
  }

  lemma WalkOutcome(net: Network, j: Job, w: ChainWalk, sources: seq<Source>)
    requires w.resolved <= |sources| && WentThrough(w, sources[..w.resolved])
    requires w.end == Walking ==> w.resolved == |sources|
    ensures var g := Settle(net, j, w);
            && (g.anonymous <==> forall s :: s in sources ==> s.Declines?)
            && (g.rejected.Some? <==> w.end == Walking && |w.tried| >= 2)
            && (g.rejected.Some? ==>
                  && g.rejected.value == |Offered(sources)| == |w.errs|
                  && (forall s :: s in sources ==> !s.Broken?)
                  && forall i :: 0 <= i < |w.errs| ==> AuthFailure(w.errs[i]))
  {
    SettleCases(net, j, w);
    NothingOffered(sources, w.resolved, w.end);
    assert sources[..|sources|] == sources;
  }

  /** A chain gone through without a credential to try, and without breaking, is one where every source declines. */
  lemma NothingOffered(sources: seq<Source>, n: nat, end: WalkEnd)
    requires n <= |sources| && Ended(sources[..n], end) && (n == |sources| || end != Walking)
    ensures end in {Walking, Stopped} && Offered(sources[..n]) == [] <==> forall s :: s in sources ==> s.Declines?
  {
    OfferedNone(sources[..n]);
    assert forall s :: s in sources[..n] ==> s in sources;
    if n > 0 {
      assert sources[n - 1] in sources[..n];
    }
    if n == |sources| {
      assert sources[..n] == sources;
    }
  }

  // What each credential is tried for.

  lemma {:induction false} OfferedConcat(a: seq<Source>, b: seq<Source>)
    ensures Offered(a + b) == Offered(a) + Offered(b)
    decreases b
  {
    if b == [] {
      assert a + b == a;
    } else {
      assert (a + b)[..|a + b| - 1] == a + b[..|b| - 1];
      OfferedConcat(a, b[..|b| - 1]);
    }
  }

  /** The remote rejected the credential, and the next gets an emptied directory. */
  ghost predicate Rejected(net: Network, j: Job, auth: Auth, st: State, next: State) {
    var p := CloneAndPrepare(net, st, j, auth);
    && p.err.Some? && (AuthRequired in p.err.value || AuthorizationFailed in p.err.value)
    && next == State(p.st.clock, map[])
  }

  /** The states in which the credentials get their turns, each after the one before was rejected. */
  ghost predicate TakesTurns(net: Network, j: Job, st: State, offered: seq<Auth>, reached: seq<State>) {
    && |reached| <= |offered|
    && (reached != [] ==> reached[0] == st)
    && forall i :: 0 <= i < |reached| - 1 ==> Rejected(net, j, offered[i], reached[i], reached[i + 1])
  }

  /** The failures of the turns taken, joined. */
  ghost function TurnFailures(net: Network, j: Job, offered: seq<Auth>, reached: seq<State>): Err
    requires |reached| <= |offered|
  {
    set i, t | 0 <= i < |reached| && Tagged(net, j, offered[i], reached[i], t) :: t
  }

  ghost predicate Tagged(net: Network, j: Job, auth: Auth, st: State, t: Tag) {
    CloneAndPrepare(net, st, j, auth).err.Some? && t in CloneAndPrepare(net, st, j, auth).err.value
  }

  /** The walk's record is the record of those turns. */
  ghost predicate Linked(net: Network, j: Job, st: State, w: ChainWalk, reached: seq<State>) {
    && |reached| == |w.tried| && TakesTurns(net, j, st, w.tried, reached)
    && |w.errs| <= |reached|
    && (forall i :: 0 <= i < |w.errs| ==> CloneAndPrepare(net, reached[i], j, w.tried[i]).err == Some(w.errs[i]))
    && if reached == [] then w.st == st
       else
         var p := CloneAndPrepare(net, reached[|reached| - 1], j, w.tried[|reached| - 1]);
         w.st == p.st && w.stamp == p.stamp && (w.end == Downloaded <==> p.err.None?)
  }

  lemma LinkedNext(
    net: Network, j: Job, st: State, w: ChainWalk, done: seq<Source>, source: Source, reached: seq<State>)
    returns (next: seq<State>)
    requires Linked(net, j, st, w, reached) && WentThrough(w, done) && w.end == Walking
    ensures Linked(net, j, st, WalkOne(net, j, w, source), next)
  {
    next := reached;
    if source.Offers? {
      var clean := if w.tried != [] then State(w.st.clock, map[]) else w.st;
      next := reached + [clean];
      var v := WalkOne(net, j, w, source);
      assert v.tried == w.tried + [source.auth];
      LinkedTurn(net, j, st, w, v, reached, source.auth, clean);
    }
  }

  lemma LinkedTurn(
    net: Network, j: Job, st: State, w: ChainWalk, v: ChainWalk, reached: seq<State>, auth: Auth, next: State)
    requires Linked(net, j, st, w, reached) && |w.errs| == |reached|
    requires if reached == [] then next == st
             else Rejected(net, j, w.tried[|reached| - 1], reached[|reached| - 1], next)
    requires v.tried == w.tried + [auth]
    requires var p := CloneAndPrepare(net, next, j, auth);
             && v.st == p.st && v.stamp == p.stamp && (v.end == Downloaded <==> p.err.None?)
             && v.errs == w.errs + (if p.err.Some? then [p.err.value] else [])
    ensures Linked(net, j, st, v, reached + [next])
  {
    TurnAppended(net, j, st, w.tried, reached, auth, next);
  }

  lemma TurnAppended(
    net: Network, j: Job, st: State, tried: seq<Auth>, reached: seq<State>, auth: Auth, next: State)
    requires |reached| == |tried| && TakesTurns(net, j, st, tried, reached)
    requires if reached == [] then next == st
             else Rejected(net, j, tried[|tried| - 1], reached[|reached| - 1], next)
    ensures TakesTurns(net, j, st, tried + [auth], reached + [next])
  {
    var n, all, offered := |reached|, reached + [next], tried + [auth];
    forall i | 0 <= i < n ensures Rejected(net, j, offered[i], all[i], all[i + 1]) {
      if i < n - 1 {
        assert Rejected(net, j, tried[i], reached[i], reached[i + 1]);
      }
    }
  }

  lemma {:induction false} ChainLinked(
    net: Network, j: Job, st: State, w: ChainWalk, done: seq<Source>, rest: seq<Source>, reached: seq<State>)
    returns (all: seq<State>)
    requires WentThrough(w, done) && Linked(net, j, st, w, reached)
    ensures Linked(net, j, st, WalkChain(net, j, w, rest), all)
    decreases rest
  {
    all := reached;
    if rest != [] && w.end == Walking {
      OneMore(net, j, w, done, rest[0]);
      var next := LinkedNext(net, j, st, w, done, rest[0], reached);
      all := ChainLinked(net, j, st, WalkOne(net, j, w, rest[0]), done + [rest[0]], rest[1..], next);
    }
  }

  lemma {:induction false} TurnsAgree(
    net: Network, j: Job, st: State, x: seq<Auth>, y: seq<Auth>, a: seq<State>, b: seq<State>, n: nat)
    requires TakesTurns(net, j, st, x, a) && TakesTurns(net, j, st, y, b) && n <= |a| && n <= |b|
    requires forall i :: 0 <= i < n ==> x[i] == y[i]
    ensures forall i :: 0 <= i < n ==> a[i] == b[i]
    decreases n
  {
    if n > 1 {
      TurnsAgree(net, j, st, x, y, a, b, n - 1);
      assert Rejected(net, j, x[n - 2], a[n - 2], a[n - 1]) && Rejected(net, j, y[n - 2], b[n - 2], b[n - 1]);
    }
  }

  /** The sources up to the first that is broken. */
  ghost predicate Usable(sources: seq<Source>, b: nat) {
    b <= |sources| && NoneBroken(sources[..b]) && (b == |sources| || sources[b].Broken?)
  }

  /** How far the walk gets: it tries a beginning of what the usable sources offer, all of it unless a try ended it. */
  lemma WalkReaches(net: Network, j: Job, st: State, sources: seq<Source>, b: nat)
    requires Usable(sources, b)
    ensures var w, offered := WalkChain(net, j, Start(st), sources), Offered(sources[..b]);
            && w.tried <= offered && Rejections(w.errs, w.end)
            && |w.tried| == |w.errs| + (if w.end == Downloaded then 1 else 0)
            && (w.end in {Downloaded, Stopped} ==> w.tried != [])
            && (w.end !in {Downloaded, Stopped} ==>
                  w.tried == offered && w.end == if b == |sources| then Walking else BadSource(sources[b].err))
  {
    ChainThrough(net, j, Start(st), [], sources);
    assert [] + sources == sources;
    var w := WalkChain(net, j, Start(st), sources);
    DoneUpTo(sources, b, w.resolved, w.end);
  }

  /** What a walk that ended so has gone through, seen against the usable sources. */
  lemma DoneUpTo(sources: seq<Source>, b: nat, r: nat, end: WalkEnd)
    requires Usable(sources, b) && r <= |sources| && Ended(sources[..r], end) && (end == Walking ==> r == |sources|)
    ensures Offered(sources[..r]) <= Offered(sources[..b])
    ensures end !in {Downloaded, Stopped} ==>
              Offered(sources[..r]) == Offered(sources[..b]) && end == if b == |sources| then Walking
                else BadSource(sources[b].err)
    ensures end in {Downloaded, Stopped} ==> Offered(sources[..r]) != []
  {
    NoneBrokenAt(sources, b);
    if end.BadSource? {
      assert sources[..r][..r - 1] == sources[..r - 1];
      NoneBrokenAt(sources, r - 1);
      assert b == r - 1 && sources[..r] == sources[..b] + [sources[b]];
      OfferedConcat(sources[..b], [sources[b]]);
      assert [sources[b]][..0] == [];
    } else {
      NoneBrokenAt(sources, r);
      assert r <= b && sources[..b] == sources[..r] + sources[r..b];
      OfferedConcat(sources[..r], sources[r..b]);
      if end != Walking {
        assert Offered(sources[..r])[|Offered(sources[..r])| - 1] == sources[r - 1].auth;
      }
    }
  }

  lemma NoneBrokenAt(sources: seq<Source>, n: nat)
    requires n <= |sources| && NoneBroken(sources[..n])
    ensures forall i :: 0 <= i < n ==> !sources[i].Broken?
  {
    forall i | 0 <= i < n ensures !sources[i].Broken? {
      assert sources[i] in sources[..n];
    }
  }

  lemma {:induction false} JoinedAll(errs: seq<Err>, t: Tag)
    ensures t in Joined(errs) <==> exists i :: 0 <= i < |errs| && t in errs[i]
    decreases errs
  {
    if errs != [] {
      var n := |errs| - 1;
      JoinedAll(errs[..n], t);
      assert forall i :: 0 <= i < n ==> errs[..n][i] == errs[i];
    }
  }

  /**
   * What a turn that is the last in a list of turns says of the whole download; broken is the error
   * behind them, if any.
   */
  ghost predicate LastTurnDecides(
    net: Network, j: Job, offered: seq<Auth>, reached: seq<State>, broken: Option<Err>, g: Stage)
    requires 0 < |reached| <= |offered|
  {
    var n := |reached| - 1;
    var p := CloneAndPrepare(net, reached[n], j, offered[n]);
    if p.err.None? then g == Stage(p.st, None, p.stamp)
    else if AuthRequired !in p.err.value && AuthorizationFailed !in p.err.value then
      g.st == p.st && g.err == Some(TurnFailures(net, j, offered, reached))
    else |reached| == |offered| ==> g.st == p.st && g.err == if broken.Some? then broken else p.err
  }

  /** The end of the chain behind the usable sources: nothing, or the error of a broken one. */
  function Behind(sources: seq<Source>, b: nat): Option<Err> {
    if b < |sources| && sources[b].Broken? then Some(sources[b].err) else None
  }

  /**
   * What came of each credential. The sources offer their credentials in order, and each gets its turn
   * with CloneAndPrepare, in an emptied directory after the first, as long as the ones before were
   * rejected. The first that succeeds leaves its files; the first that fails otherwise ends the matter
   * with all the failures so far; when all are rejected the last rejection is the error, unless a
   * broken source behind them is.
   */
  lemma GitByCredentials(c: Candidate, st: State, j: Job, b: nat, reached: seq<State>)
    requires c.guard.None? && Usable(c.sources, b)
    requires reached != [] && TakesTurns(c.net, j, st, Offered(c.sources[..b]), reached)
    ensures LastTurnDecides(c.net, j, Offered(c.sources[..b]), reached, Behind(c.sources, b),
            GitDownload(c, st, j).stage)
  {
    var w, offered := WalkChain(c.net, j, Start(st), c.sources), Offered(c.sources[..b]);
    var all := ChainLinked(c.net, j, st, Start(st), [], c.sources, []);
    WalkReaches(c.net, j, st, c.sources, b);
    TurnsAgree(c.net, j, st, offered, w.tried, reached, all, if |reached| <= |all| then |reached| else |all|);
    NotAfter(c.net, j, st, offered, w, reached, all);
    if |reached| == |all| {
      assert reached == all;
      WalkSettles(c.net, j, st, offered, w, all, Behind(c.sources, b));
    } else {
      TurnAt(c.net, j, st, w.tried, all, |reached| - 1);
    }
  }

  /** Before the last of the turns the credential was rejected. */
  lemma TurnAt(net: Network, j: Job, st: State, offered: seq<Auth>, reached: seq<State>, n: nat)
    requires TakesTurns(net, j, st, offered, reached)
    ensures n + 1 < |reached| ==>
              var p := CloneAndPrepare(net, reached[n], j, offered[n]);
              p.err.Some? && AuthFailure(p.err.value)
  {
    assert n + 1 < |reached| ==> Rejected(net, j, offered[n], reached[n], reached[n + 1]);
  }

  /** There are no turns after the walk's. */
  lemma NotAfter(
    net: Network, j: Job, st: State, offered: seq<Auth>, w: ChainWalk, reached: seq<State>, all: seq<State>)
    requires TakesTurns(net, j, st, offered, reached) && Linked(net, j, st, w, all) && w.tried <= offered
    requires forall i :: 0 <= i < |reached| && i < |all| ==> reached[i] == all[i]
    requires Rejections(w.errs, w.end) && |w.tried| == |w.errs| + (if w.end == Downloaded then 1 else 0)
    requires if w.end in {Downloaded, Stopped} then w.tried != [] else w.tried == offered
    ensures |reached| <= |all|
  {
    if all != [] {
      TurnAt(net, j, st, offered, reached, |all| - 1);
    }
  }

  lemma WalkSettles(
    net: Network, j: Job, st: State, offered: seq<Auth>, w: ChainWalk, all: seq<State>, broken: Option<Err>)
    requires Linked(net, j, st, w, all) && w.tried <= offered && all != []
    requires Rejections(w.errs, w.end) && |w.tried| == |w.errs| + (if w.end == Downloaded then 1 else 0)
    requires w.end !in {Downloaded, Stopped} ==>
            w.tried == offered && w.end == if broken.None? then Walking else BadSource(broken.value)
    ensures LastTurnDecides(net, j, offered, all, broken, Settle(net, j, w).stage)
  {
    if w.end != Downloaded {
      FailuresJoined(net, j, st, offered, w, all);
      if |w.errs| == 1 {
        assert Joined(w.errs) == w.errs[0] by { assert w.errs[..0] == []; }
      }
    }
  }

  /** Without any credential the clone is anonymous, unless a source is broken. */
  lemma GitWithoutCredentials(c: Candidate, st: State, j: Job, b: nat)
    requires c.guard.None? && Usable(c.sources, b) && Offered(c.sources[..b]) == []
    ensures var g := GitDownload(c, st, j).stage;
            if Behind(c.sources, b).Some? then g.st == st && g.err == Behind(c.sources, b)
            else g == CloneAndPrepare(c.net, st, j, Anonymous)
  {
    var all := ChainLinked(c.net, j, st, Start(st), [], c.sources, []);
    WalkReaches(c.net, j, st, c.sources, b);
  }

  /** The guard's verdict comes before everything. */
  lemma GuardFirst(c: Candidate, st: State, j: Job)
    requires c.guard.Some?
    ensures GitDownload(c, st, j).stage.st == st && GitDownload(c, st, j).stage.err == c.guard
  {}

  lemma FailuresJoined(net: Network, j: Job, st: State, offered: seq<Auth>, w: ChainWalk, reached: seq<State>)
    requires Linked(net, j, st, w, reached) && w.tried <= offered && |w.errs| == |reached|
    ensures TurnFailures(net, j, offered, reached) == Joined(w.errs)
  {
    forall t: Tag ensures t in TurnFailures(net, j, offered, reached) <==> t in Joined(w.errs) {
      JoinedAll(w.errs, t);
      assert forall i :: 0 <= i < |reached| ==> (Tagged(net, j, offered[i], reached[i], t) <==> t in w.errs[i]);
    }
  }
}
