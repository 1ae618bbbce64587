/**
 * Which references a download asks a remote for, and how a commit hash is found among the commits
 * at hand (protocols/git/git.go).
 */
module Refs {
  import opened Options
  import opened Strings
  import opened GitObjects

  predicate LooksLikeCommitHash(ref: string) {
    7 <= |ref| <= 40 && forall c :: c in ref ==> HexDigit(c)
  }

  /** One candidate reference to clone at; no name asks for the remote's HEAD. */
  datatype Attempt = Attempt(refName: string, single: bool)

  const HEADS := "refs/heads/"
  const TAGS := "refs/tags/"

  function QualifiedRefName(ref: string): Option<string> {
    if "refs/" <= ref then Some(ref)
    else if "tags/" <= ref then Some(TAGS + ref[5..])
    else if "heads/" <= ref then Some(HEADS + ref[6..])
    else None
  }

  /** cloneAttempts */
  function CloneAttempts(ref: string): (attempts: seq<Attempt>)
    ensures |attempts| >= 1
  {
    if LooksLikeCommitHash(ref) then [Attempt("", false)]
    else if ref == "" then [Attempt("", true)]
    else if QualifiedRefName(ref).Some? then [Attempt(QualifiedRefName(ref).value, true)]
    else
      [Attempt(HEADS + ref, true), Attempt(TAGS + ref, true)]
        + if '/' in ref then [Attempt("refs/" + ref, true)] else []
  }

  /**
   * Seven to forty hexadecimal digits, in either case, are a commit to be looked up in a clone of HEAD,
   * and so is no reference at all; anything else names what is cloned.
   */
  lemma HeadOrName(ref: string)
    ensures (exists a :: a in CloneAttempts(ref) && a.refName == "") <==>
            ref == "" || (7 <= |ref| <= 40 && forall c :: c in ref ==> c in "0123456789abcdefABCDEF")
  {
    forall c: char ensures HexDigit(c) <==> c in "0123456789abcdefABCDEF" {
      DigitListed(c);
    }
    if LooksLikeCommitHash(ref) || ref == "" {
      assert CloneAttempts(ref)[0].refName == "";
    }
  }

  lemma DigitListed(c: char)
    ensures HexDigit(c) <==> c in "0123456789abcdefABCDEF"
  {
    if HexDigit(c) {
      var i := if c <= '9' then c as int - '0' as int else if c <= 'F' then 16 + c as int - 'A' as int
          else 10 + c as int - 'a' as int;
      assert "0123456789abcdefABCDEF"[i] == c;
    }
  }

  /** However a tag is written, the tag itself is asked for; the spellings that name it ask for nothing else. */
  lemma TagSpellings(tag: string)
    requires tag != "" && !LooksLikeCommitHash(tag)
    ensures CloneAttempts("tags/" + tag) == CloneAttempts(TAGS + tag) == [Attempt(TAGS + tag, true)]
    ensures QualifiedRefName(tag).None? ==> Attempt(TAGS + tag, true) in CloneAttempts(tag)
  {
    var a, b := "tags/" + tag, TAGS + tag;
    assert a[0] == 't' && a[0] in a && !HexDigit(a[0]);
    assert b[0] == 'r' && b[0] in b && !HexDigit(b[0]);
    assert a[5..] == tag && !("refs/" <= a);
    if QualifiedRefName(tag).None? {
      assert CloneAttempts(tag)[1] == Attempt(TAGS + tag, true);
    }
  }

  // resolveCommitHash

  function Matching(commits: map<Hash, Commit>, ref: string): set<Hash> {
    set h | h in commits && ToLower(ref) <= h
  }

  /** The commit a hash or an abbreviated hash stands for: none, if several or no commits match. */
  ghost predicate StandsFor(commits: map<Hash, Commit>, ref: string, h: Hash) {
    if |ref| == 40 then h == ToLower(ref) && h in commits
    else Matching(commits, ref) == {h}
  }

  ghost function ResolveHash(commits: map<Hash, Commit>, ref: string): Option<Hash> {
    if h :| StandsFor(commits, ref, h) then Some(h) else None
  }

  /** A hash may be written in either case. */
  lemma HashCaseIgnored(commits: map<Hash, Commit>, a: string, b: string)
    requires ToLower(a) == ToLower(b)
    ensures ResolveHash(commits, a) == ResolveHash(commits, b)
  {
    assert Matching(commits, a) == Matching(commits, b);
    assert forall h :: StandsFor(commits, a, h) <==> StandsFor(commits, b, h);
    assert forall g, h :: StandsFor(commits, a, g) && StandsFor(commits, a, h) ==> g == h;
  }

  method ResolveCommitHash(commits: map<Hash, Commit>, ref: string) returns (r: Option<Hash>)
    ensures r == ResolveHash(commits, ref)
    ensures forall h :: r == Some(h) <==> StandsFor(commits, ref, h)
  {
    var lower := ToLower(ref);
    if |ref| == 40 {
      r := if lower in commits then Some(lower) else None;
      OneAnswer(commits, ref, r);
      return;
    }
    var rest, found := commits.Keys, 0;
    r := None;
    while rest != {}
      invariant rest <= commits.Keys && 0 <= found <= 1
      invariant found == 0 ==> r == None && Matching(commits, ref) * (commits.Keys - rest) == {}
      invariant found == 1 ==> r.Some? && Matching(commits, ref) * (commits.Keys - rest) == {r.value}
      decreases rest
    {
      var h :| h in rest;
      rest := rest - {h};
      assert Matching(commits, ref) * (commits.Keys - rest)
          == Matching(commits, ref) * (commits.Keys - (rest + {h})) + if h in Matching(commits, ref) then {h} else {};
      if lower <= h {
        if found == 1 {
          Ambiguous(commits, ref, r.value, h);
          OneAnswer(commits, ref, None);
          return None;
        }
        r := Some(h);
        found := found + 1;
      }
    }
    assert Matching(commits, ref) * (commits.Keys - rest) == Matching(commits, ref);
    OneAnswer(commits, ref, r);
  }

  lemma Ambiguous(commits: map<Hash, Commit>, ref: string, a: Hash, b: Hash)
    requires |ref| != 40 && a != b && a in Matching(commits, ref) && b in Matching(commits, ref)
    ensures forall h :: !StandsFor(commits, ref, h)
  {}

  lemma OneAnswer(commits: map<Hash, Commit>, ref: string, r: Option<Hash>)
    requires forall h :: StandsFor(commits, ref, h) ==> r == Some(h)
    requires r.Some? ==> StandsFor(commits, ref, r.value)
    ensures r == ResolveHash(commits, ref)
  {}

  /**
   * The sparse path looks for a short hash in fewer commits than the full clone does. When both
   * find one, it is the same commit; and the sparse path alone can find one only if the full
   * clone meets a second match.
   */
  lemma ShortHashAgrees(some: map<Hash, Commit>, all: map<Hash, Commit>, ref: string)
    requires some.Keys <= all.Keys && ResolveHash(some, ref).Some?
    ensures ResolveHash(all, ref).Some? ==> ResolveHash(all, ref) == ResolveHash(some, ref)
    ensures ResolveHash(all, ref).None? <==> |ref| != 40 && Matching(all, ref) > Matching(some, ref)
  {
    var h := ResolveHash(some, ref).value;
    assert StandsFor(some, ref, h);
    if |ref| == 40 {
      assert StandsFor(all, ref, h);
    } else {
      assert Matching(some, ref) <= Matching(all, ref);
      if Matching(all, ref) == Matching(some, ref) {
        assert StandsFor(all, ref, h);
      }
      if ResolveHash(all, ref).Some? {
        var g := ResolveHash(all, ref).value;
        assert h in Matching(some, ref) && Matching(all, ref) == {g};
      }
    }
  }
}
