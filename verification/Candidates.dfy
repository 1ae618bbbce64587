/**
 * Which URL a download ends at (Download in protocols/git/git.go): over the states the candidates are
 * reached in, one after the other.
 */
module Candidates {
  import opened Options
  import opened Checkout
  import opened Archive
  import opened Refs
  import opened Remotes
  import opened Engine

  /** What the candidate's turn ends with when it fails: its probe's error, or the download's. */
  ghost function Failure(c: Candidate, st: State, j: Job): Option<Err> {
    if c.probe.Some? then c.probe else GitDownload(c, st, j).stage.err
  }

  /** How many operations have been answered after its turn; a failed probe contacts no remote. */
  ghost function ClockAfter(c: Candidate, st: State, j: Job): nat {
    if c.probe.Some? then st.clock else GitDownload(c, st, j).stage.st.clock
  }

  /**
   * It failed in a way that another transport may mend: its probe, or without one of the four
   * sentinels that settle the matter.
   */
  ghost predicate LeadsOn(c: Candidate, st: State, j: Job) {
    || c.probe.Some?
    || (&& Failure(c, st, j).Some?
        && Failure(c, st, j).value !! {RefNotFound, EmptyRemote, Canceled, DeadlineExceeded})
  }

  /**
   * The states in which the candidates get their turns: each but the first in an emptied directory,
   * after one that leads on.
   */
  ghost predicate Reached(st: State, j: Job, candidates: seq<Candidate>, reached: seq<State>) {
    && |reached| <= |candidates|
    && (reached != [] ==> reached[0] == st)
    && forall i :: 0 <= i < |reached| - 1 ==> Follows(j, candidates[i], reached[i], reached[i + 1])
  }

  ghost predicate Follows(j: Job, c: Candidate, st: State, next: State) {
    LeadsOn(c, st, j) && next == State(ClockAfter(c, st, j), map[])
  }

  /** The last of them succeeds. */
  ghost predicate SucceedsAt(st: State, j: Job, candidates: seq<Candidate>, reached: seq<State>) {
    && Reached(st, j, candidates, reached) && reached != []
    && Failure(candidates[|reached| - 1], reached[|reached| - 1], j).None?
  }

  /** The last of them fails, and there is no other or its failure settles the matter. */
  ghost predicate GivesUpAt(st: State, j: Job, candidates: seq<Candidate>, reached: seq<State>) {
    && Reached(st, j, candidates, reached)
    && if reached == [] then candidates == []
       else
         var c, last := candidates[|reached| - 1], reached[|reached| - 1];
         Failure(c, last, j).Some? && (|reached| == |candidates| || !LeadsOn(c, last, j))
  }

  ghost function ClockAtEnd(st: State, j: Job, candidates: seq<Candidate>, reached: seq<State>): nat
    requires |reached| <= |candidates|
  {
    if reached == [] then st.clock else ClockAfter(candidates[|reached| - 1], reached[|reached| - 1], j)
  }

  /** The failures of the turns taken, joined. */
  ghost function Failures(j: Job, candidates: seq<Candidate>, reached: seq<State>): Err
    requires |reached| <= |candidates|
  {
    set i, t | 0 <= i < |reached| && Failure(candidates[i], reached[i], j).Some?
      && t in Failure(candidates[i], reached[i], j).value :: t
  }

  // The loop takes that course.

  lemma {:induction false} ReachedOnce(
    st: State, j: Job, candidates: seq<Candidate>, a: seq<State>, b: seq<State>, n: nat)
    requires Reached(st, j, candidates, a) && Reached(st, j, candidates, b) && n <= |a| && n <= |b|
    ensures a[..n] == b[..n] && (n > 0 ==> a[n - 1] == b[n - 1])
    decreases n
  {
    if n > 1 {
      ReachedOnce(st, j, candidates, a, b, n - 1);
      assert a[n - 2] == a[..n - 1][n - 2] && b[n - 2] == b[..n - 1][n - 2];
      assert Follows(j, candidates[n - 2], a[n - 2], a[n - 1]) && Follows(j, candidates[n - 2], b[n - 2], b[n - 1]);
      assert a[..n] == a[..n - 1] + [a[n - 1]] && b[..n] == b[..n - 1] + [b[n - 1]];
    }
  }

  /** How a run along such a course ends, before the tarball is tried. */
  ghost predicate EndsLike(st: State, j: Job, candidates: seq<Candidate>, reached: seq<State>, errs: Err, r: Run) {
    && Reached(st, j, candidates, reached)
    && if r.done then
         && SucceedsAt(st, j, candidates, reached)
         && var p := GitDownload(candidates[|reached| - 1], reached[|reached| - 1], j).stage;
            r.st == p.st && r.stamp == p.stamp
       else
         && GivesUpAt(st, j, candidates, reached)
         && r.st.clock == ClockAtEnd(st, j, candidates, reached)
         && r.errs == errs + Failures(j, candidates, reached)
  }

  lemma Prepend(st: State, j: Job, candidates: seq<Candidate>, next: State, rest: seq<State>, errs: Err, r: Run)
    requires candidates != [] && Follows(j, candidates[0], st, next)
    requires var failed := if Failure(candidates[0], st, j).Some? then Failure(candidates[0], st, j).value else {};
             EndsLike(next, j, candidates[1..], rest, errs + failed, r)
    ensures EndsLike(st, j, candidates, [st] + rest, errs, r)
  {
    var reached := [st] + rest;
    forall i | 0 <= i < |reached| - 1 ensures Follows(j, candidates[i], reached[i], reached[i + 1]) {
      if i > 0 {
        assert Follows(j, candidates[1..][i - 1], rest[i - 1], rest[i]);
      }
    }
    FailuresPrepended(st, j, candidates, rest);
  }

  lemma FailuresPrepended(st: State, j: Job, candidates: seq<Candidate>, rest: seq<State>)
    requires candidates != [] && |rest| < |candidates|
    ensures var failed := if Failure(candidates[0], st, j).Some? then Failure(candidates[0], st, j).value else {};
            Failures(j, candidates, [st] + rest) == failed + Failures(j, candidates[1..], rest)
  {
    var reached := [st] + rest;
    var failed := if Failure(candidates[0], st, j).Some? then Failure(candidates[0], st, j).value else {};
    forall t | t in Failures(j, candidates, reached) ensures t in failed + Failures(j, candidates[1..], rest) {
      var i :| 0 <= i < |reached| && Failure(candidates[i], reached[i], j).Some?
          && t in Failure(candidates[i], reached[i], j).value;
      if i > 0 {
        assert candidates[1..][i - 1] == candidates[i] && rest[i - 1] == reached[i];
      }
    }
    forall t | t in failed + Failures(j, candidates[1..], rest) ensures t in Failures(j, candidates, reached) {
      if t in failed {
        assert reached[0] == st;
      } else {
        var i :| 0 <= i < |rest| && Failure(candidates[1..][i], rest[i], j).Some?
            && t in Failure(candidates[1..][i], rest[i], j).value;
        assert candidates[i + 1] == candidates[1..][i] && reached[i + 1] == rest[i];
      }
    }
  }

  lemma AlonePlaysOut(st: State, j: Job, candidates: seq<Candidate>, errs: Err, r: Run)
    requires candidates != [] && candidates[0].probe.None?
    requires var p := GitDownload(candidates[0], st, j).stage;
             if p.err.None? then r == Run(p.st, errs, true, p.stamp)
             else !LeadsOn(candidates[0], st, j) && r == Run(p.st, errs + p.err.value, false, p.stamp)
    ensures EndsLike(st, j, candidates, [st], errs, r)
  {
    FailuresPrepended(st, j, candidates, []);
    assert [st] + [] == [st];
  }

  lemma {:induction false} LoopCourse(st: State, j: Job, candidates: seq<Candidate>, first: bool, errs: Err)
    returns (reached: seq<State>)
    ensures EndsLike(if first then st
            else State(st.clock, map[]), j, candidates, reached, errs, TryCandidates(st, j, candidates, first, errs))
    decreases candidates
  {
    reached := [];
    if candidates != [] {
      var c, rest := candidates[0], candidates[1..];
      var clean := if first then st else State(st.clock, map[]);
      if c.probe.Some? {
        var more := LoopCourse(clean, j, rest, false, errs + c.probe.value);
        reached := [clean] + more;
        Prepend(clean, j, candidates, State(clean.clock, map[]), more, errs,
          TryCandidates(st, j, candidates, first, errs));
      } else {
        var g := GitDownload(c, clean, j).stage;
        if LeadsOn(c, clean, j) {
          var more := LoopCourse(g.st, j, rest, false, errs + g.err.value);
          reached := [clean] + more;
          Prepend(clean, j, candidates, State(g.st.clock, map[]), more, errs,
            TryCandidates(st, j, candidates, first, errs));
        } else {
          reached := [clean];
          AlonePlaysOut(clean, j, candidates, errs, TryCandidates(st, j, candidates, first, errs));
        }
      }
    }
  }

  /** Two courses that both end are the same. */
  lemma CoursesAgree(st: State, j: Job, candidates: seq<Candidate>, a: seq<State>, b: seq<State>)
    requires SucceedsAt(st, j, candidates, a) || GivesUpAt(st, j, candidates, a)
    requires SucceedsAt(st, j, candidates, b) || GivesUpAt(st, j, candidates, b)
    ensures a == b
  {
    if |a| < |b| {
      Shorter(st, j, candidates, a, b);
    } else if |b| < |a| {
      Shorter(st, j, candidates, b, a);
    } else {
      ReachedOnce(st, j, candidates, a, b, |a|);
      assert a[..|a|] == a && b[..|b|] == b;
    }
  }

  /** A course that has ended is not the beginning of another. */
  lemma Shorter(st: State, j: Job, candidates: seq<Candidate>, a: seq<State>, b: seq<State>)
    requires SucceedsAt(st, j, candidates, a) || GivesUpAt(st, j, candidates, a)
    requires Reached(st, j, candidates, b)
    ensures |b| <= |a|
  {
    Continues(st, j, candidates, b, |a|);
    ReachedOnce(st, j, candidates, a, b, if |a| < |b| then |a| else 0);
  }

  lemma Continues(st: State, j: Job, candidates: seq<Candidate>, reached: seq<State>, n: nat)
    requires Reached(st, j, candidates, reached)
    ensures 0 < n < |reached| ==> LeadsOn(candidates[n - 1], reached[n - 1], j)
  {
    assert 0 < n < |reached| ==> Follows(j, candidates[n - 1], reached[n - 1], reached[n]);
  }

  // The download.

  /** What the tarball leaves, if it may be tried at that moment and extracts. */
  ghost function FromTarball(j: Job, platform: Platform, clock: nat): Option<Files> {
    if !LooksLikeCommitHash(j.ref) || j.ctx(clock) || platform(clock).None? then None
    else
      var x := Extracted(map[], platform(clock).value, j.root, j.subdir, j.maxBytes, clock);
      if x.status == Going then Some(x.files) else None
  }

  /**
   * The next URL. A download succeeds at the first candidate that does, each earlier one having failed
   * its probe, or failed without any of the sentinels that settle the matter; it then leaves what that
   * candidate left, starting from an emptied directory unless it was the first. When there is none, it
   * succeeds exactly when the reference looks like a hash, the context is not done and the platform's
   * tarball extracts, and leaves the tarball's files. Otherwise its error joins the failures of all the
   * candidates that had their turn. There is always exactly one such course.
   */
  lemma DownloadCourse(st: State, j: Job, candidates: seq<Candidate>, platform: Platform)
    ensures exists reached :: SucceedsAt(st, j, candidates, reached) || GivesUpAt(st, j, candidates, reached)
    ensures forall reached :: SucceedsAt(st, j, candidates, reached) ==>
              var r := Download(st, j, candidates, platform);
              var p := GitDownload(candidates[|reached| - 1], reached[|reached| - 1], j).stage;
              r.done && r.st == p.st && r.stamp == p.stamp
    ensures forall reached :: GivesUpAt(st, j, candidates, reached) ==>
              var r := Download(st, j, candidates, platform);
              var clock := ClockAtEnd(st, j, candidates, reached);
              && (r.done <==> FromTarball(j, platform, clock).Some?)
              && (r.done ==> r.st.files == FromTarball(j, platform, clock).value && r.stamp == clock)
              && r.errs == Failures(j, candidates, reached)
  {
    var course := LoopCourse(st, j, candidates, true, {});
    assert {} + Failures(j, candidates, course) == Failures(j, candidates, course);
    forall reached | SucceedsAt(st, j, candidates, reached)
      || GivesUpAt(st, j, candidates, reached) ensures reached == course {
      CoursesAgree(st, j, candidates, reached, course);
    }
  }
}
