/**
 * Which configured credentials apply to a remote, and in which order (settings/settings.go;
 * authCandidates in protocols/git/git.go).
 */
module Credentials {
  import opened Options
  import opened Strings
  import opened Paths
  import opened Remotes
  import opened Engine
  import opened CredentialWalk

  datatype HTTPSCredential = HTTPSCredential(host: string, username: string, password: string, path: string)

  /** A parsed URL, as far as matching goes; no user is the empty username. */
  datatype Url = Url(scheme: string, username: string, password: Option<string>, host: string, path: string)

  predicate HasPrefixFold(s: string, prefix: string) {
    |s| >= |prefix| && EqualFold(s[..|prefix|], prefix)
  }

  /** prefix covers s only up to a path separator. */
  predicate HasSegmentPrefixFold(s: string, prefix: string) {
    HasPrefixFold(s, prefix) && (|s| == |prefix| || s[|prefix|] == '/')
  }

  function CredPath(c: HTTPSCredential): string {
    TrimSuffix(c.path, "/")
  }

  function UrlPath(u: Url): string {
    TrimSuffix(TrimSuffix(u.path, "/"), ".git")
  }

  predicate Matches(c: HTTPSCredential, u: Url) {
    && EqualFold(c.host, u.host)
    && (u.username != "" ==> EqualFold(c.username, u.username))
    && (c.path != "" ==> HasSegmentPrefixFold(UrlPath(u), CredPath(c)))
  }

  /** The length of the credential's path, or -1 for a host-only credential. */
  function PathLen(c: HTTPSCredential): int {
    if c.path == "" then -1 else |CredPath(c)|
  }

  /** One index goes before another: the longer path, and among equals the earlier configured. */
  predicate Before(creds: seq<HTTPSCredential>, i: nat, j: nat)
    requires i < |creds| && j < |creds|
  {
    PathLen(creds[i]) > PathLen(creds[j]) || (PathLen(creds[i]) == PathLen(creds[j]) && i < j)
  }

  /** ranked lists exactly the matching credentials, by index, each before the next. */
  ghost predicate Ranking(creds: seq<HTTPSCredential>, u: Url, ranked: seq<nat>) {
    && (forall k :: 0 <= k < |ranked| ==> ranked[k] < |creds|)
    && (forall i :: 0 <= i < |creds| ==> (i in ranked <==> Matches(creds[i], u)))
    && Ordered(creds, ranked)
  }

  ghost predicate Ordered(creds: seq<HTTPSCredential>, ranked: seq<nat>)
    requires forall k :: 0 <= k < |ranked| ==> ranked[k] < |creds|
  {
    forall a, b :: 0 <= a < b < |ranked| ==> Before(creds, ranked[a], ranked[b])
  }

  datatype Match = Match(cred: nat, pathLen: int)

  /** Where a stable sort, longest path first, puts the next match: behind everything at least as long. */
  function InsertStable(sorted: seq<Match>, m: Match): seq<Match> {
    if sorted == [] || sorted[|sorted| - 1].pathLen >= m.pathLen then sorted + [m]
    else InsertStable(sorted[..|sorted| - 1], m) + [sorted[|sorted| - 1]]
  }

  ghost predicate StablySorted(ms: seq<Match>) {
    forall a, b :: 0 <= a < b < |ms| ==> Precedes(ms[a], ms[b])
  }

  predicate Precedes(x: Match, y: Match) {
    x.pathLen > y.pathLen || (x.pathLen == y.pathLen && x.cred < y.cred)
  }

  lemma AppendKeeps(front: seq<Match>, last: Match)
    requires StablySorted(front) && forall x :: x in front ==> Precedes(x, last)
    ensures StablySorted(front + [last])
  {}

  lemma LastOfSorted(sorted: seq<Match>, n: nat)
    requires StablySorted(sorted) && |sorted| == n + 1
    ensures StablySorted(sorted[..n]) && sorted == sorted[..n] + [sorted[n]]
    ensures forall x :: x in sorted[..n] ==> Precedes(x, sorted[n])
  {}

  /** Inserting a later credential keeps the order and loses nothing. */
  lemma {:induction false} InsertKeeps(sorted: seq<Match>, m: Match)
    requires StablySorted(sorted) && forall x :: x in sorted ==> x.cred < m.cred
    ensures StablySorted(InsertStable(sorted, m))
    ensures forall x :: x in InsertStable(sorted, m) <==> x in sorted || x == m
    decreases sorted
  {
    if sorted == [] || sorted[|sorted| - 1].pathLen >= m.pathLen {
      if sorted != [] {
        LastOfSorted(sorted, |sorted| - 1);
      }
      AppendKeeps(sorted, m);
    } else {
      var n := |sorted| - 1;
      LastOfSorted(sorted, n);
      InsertKeeps(sorted[..n], m);
      AppendKeeps(InsertStable(sorted[..n], m), sorted[n]);
    }
  }

  /** MatchHTTPSCredentials, as indices into the configured credentials. */
  method MatchHTTPSCredentials(creds: seq<HTTPSCredential>, url: Option<Url>) returns (ranked: seq<nat>)
    ensures url.None? ==> ranked == []
    ensures url.Some? ==> Ranking(creds, url.value, ranked)
  {
    if url.None? {
      return [];
    }
    var u := url.value;
    var matches: seq<Match> := [];
    for i := 0 to |creds|
      invariant AllFound(creds, u, matches, i) && InOrder(matches)
    {
      var cred := creds[i];
      if !EqualFold(cred.host, u.host) {
        continue;
      }
      if u.username != "" && !EqualFold(cred.username, u.username) {
        continue;
      }
      var pathLen := -1;
      if cred.path != "" {
        var credPath := TrimSuffix(cred.path, "/");
        if !HasSegmentPrefixFold(UrlPath(u), credPath) {
          continue;
        }
        pathLen := |credPath|;
      }
      matches := matches + [Match(i, pathLen)];
    }
    var sorted := SortStable(matches);
    ranked := seq(|sorted|, k requires 0 <= k < |sorted| => sorted[k].cred);
    RankedBySorting(creds, u, matches, sorted, ranked);
  }

  /** The matches are those of the first n credentials. */
  ghost predicate AllFound(creds: seq<HTTPSCredential>, u: Url, matches: seq<Match>, n: nat)
    requires n <= |creds|
  {
    && (forall m :: m in matches ==> m.cred < n && Matches(creds[m.cred], u) && m.pathLen == PathLen(creds[m.cred]))
    && (forall k :: 0 <= k < n && Matches(creds[k], u) ==> Match(k, PathLen(creds[k])) in matches)
  }

  ghost predicate InOrder(matches: seq<Match>) {
    forall a, b :: 0 <= a < b < |matches| ==> matches[a].cred < matches[b].cred
  }

  lemma RankedBySorting(
    creds: seq<HTTPSCredential>, u: Url, matches: seq<Match>, sorted: seq<Match>, ranked: seq<nat>)
    requires AllFound(creds, u, matches, |creds|) && StablySorted(sorted) && forall m :: m in sorted <==> m in matches
    requires |ranked| == |sorted| && forall k :: 0 <= k < |sorted| ==> ranked[k] == sorted[k].cred
    ensures Ranking(creds, u, ranked)
  {
    assert forall k :: 0 <= k < |sorted| ==> sorted[k] in matches;
    forall i | 0 <= i < |creds| && Matches(creds[i], u) ensures i in ranked {
      var k :| 0 <= k < |sorted| && sorted[k] == Match(i, PathLen(creds[i]));
      assert ranked[k] == i;
    }
    forall a, b | 0 <= a < b < |ranked| ensures Before(creds, ranked[a], ranked[b]) {
      assert Precedes(sorted[a], sorted[b]);
    }
  }

  method SortStable(matches: seq<Match>) returns (sorted: seq<Match>)
    requires InOrder(matches)
    ensures StablySorted(sorted) && forall m :: m in sorted <==> m in matches
  {
    sorted := [];
    for i := 0 to |matches|
      invariant StablySorted(sorted) && forall m :: m in sorted <==> m in matches[..i]
    {
      InsertKeeps(sorted, matches[i]);
      sorted := InsertStable(sorted, matches[i]);
      assert matches[..i + 1] == matches[..i] + [matches[i]];
    }
    assert matches[..|matches|] == matches;
  }

  /** The three properties leave no choice: the ranking is unique. */
  lemma {:induction false} RankingUnique(creds: seq<HTTPSCredential>, u: Url, r: seq<nat>, s: seq<nat>)
    requires Ranking(creds, u, r) && Ranking(creds, u, s)
    ensures r == s
  {
    SameOrder(creds, r, s);
  }

  lemma {:induction false} SameOrder(creds: seq<HTTPSCredential>, r: seq<nat>, s: seq<nat>)
    requires forall k :: 0 <= k < |r| ==> r[k] < |creds|
    requires forall k :: 0 <= k < |s| ==> s[k] < |creds|
    requires Ordered(creds, r) && Ordered(creds, s)
    requires forall i :: 0 <= i < |creds| ==> (i in r <==> i in s)
    ensures r == s
    decreases r
  {
    assert forall k :: 0 <= k < |s| ==> s[k] in s && s[k] in r;
    assert s != [] ==> s[0] in r;
    if r != [] {
      assert r[0] in r && r[0] in s;
      var a :| 0 <= a < |s| && s[a] == r[0];
      var b :| 0 <= b < |r| && r[b] == s[0];
      assert r[0] == s[0];
      HeadOnce(creds, r);
      HeadOnce(creds, s);
      assert forall i :: i in r <==> i == r[0] || i in r[1..];
      assert forall i :: i in s <==> i == s[0] || i in s[1..];
      SameOrder(creds, r[1..], s[1..]);
    }
  }

  lemma HeadOnce(creds: seq<HTTPSCredential>, r: seq<nat>)
    requires r != [] && (forall k :: 0 <= k < |r| ==> r[k] < |creds|) && Ordered(creds, r)
    ensures r[0] !in r[1..]
  {}

  /** MatchHTTPSCredential returns the earliest configured among the matches with the longest path. */
  lemma HeadIsEarliestLongest(creds: seq<HTTPSCredential>, u: Url, ranked: seq<nat>, i: nat)
    requires Ranking(creds, u, ranked) && i < |creds| && Matches(creds[i], u)
    ensures ranked != [] && Matches(creds[ranked[0]], u)
    ensures PathLen(creds[ranked[0]]) >= PathLen(creds[i])
    ensures PathLen(creds[ranked[0]]) == PathLen(creds[i]) ==> ranked[0] <= i
  {}

  /** Scopes that apply to one URL are nested: of two, one covers the other up to a separator. */
  lemma ScopesNest(a: HTTPSCredential, b: HTTPSCredential, u: Url)
    requires Matches(a, u) && Matches(b, u) && a.path != "" && b.path != "" && PathLen(a) <= PathLen(b)
    ensures HasSegmentPrefixFold(CredPath(b), CredPath(a))
  {}

  // What matching means, in segments.

  predicate Pieces(segs: seq<string>) {
    forall x :: x in segs ==> x != "" && '/' !in x
  }

  /** The credential's scope: the whole host, or the repositories below a path, written with or without a last slash. */
  predicate Scoped(c: HTTPSCredential, scope: seq<string>) {
    && Pieces(scope)
    && if scope == [] then c.path == "" else c.path == AbsPath(scope) || c.path == AbsPath(scope) + "/"
  }

  /** The repository a URL path addresses: its last name may carry ".git", and a slash may follow. */
  predicate Addresses(u: Url, repo: seq<string>) {
    && repo != [] && Pieces(repo) && !HasSuffix(repo[|repo| - 1], ".git")
    && exists suffix :: suffix in {"", "/", ".git", ".git/"} && u.path == AbsPath(repo) + suffix
  }

  function LowerAll(segs: seq<string>): (r: seq<string>)
    ensures |r| == |segs|
  {
    seq(|segs|, i requires 0 <= i < |segs| => ToLower(segs[i]))
  }

  lemma LowerConcat(a: string, b: string)
    ensures ToLower(a + b) == ToLower(a) + ToLower(b)
  {}

  lemma {:induction false} LowerJoin(segs: seq<string>)
    ensures ToLower(Join(segs, '/')) == Join(LowerAll(segs), '/')
    decreases segs
  {
    if |segs| > 1 {
      LowerJoin(segs[1..]);
      assert LowerAll(segs)[1..] == LowerAll(segs[1..]);
      LowerConcat(segs[0], "/" + Join(segs[1..], '/'));
      LowerConcat("/", Join(segs[1..], '/'));
      assert Join(segs, '/') == segs[0] + ("/" + Join(segs[1..], '/'));
    }
  }

  lemma LowerAbsPath(segs: seq<string>)
    ensures ToLower(AbsPath(segs)) == AbsPath(LowerAll(segs))
  {
    LowerConcat("/", Join(segs, '/'));
    LowerJoin(segs);
  }

  /** Covering, on lower-cased text. */
  lemma CoversLowered(s: string, prefix: string)
    ensures HasSegmentPrefixFold(s, prefix) <==>
            ToLower(prefix) == ToLower(s) || ToLower(prefix) + "/" <= ToLower(s)
  {
    var l, p := ToLower(s), ToLower(prefix);
    if |s| > |prefix| {
      assert l[..|prefix|] == ToLower(s[..|prefix|]);
      assert l[|prefix|] == '/' <==> s[|prefix|] == '/';
      assert l[..|prefix| + 1] == l[..|prefix|] + [l[|prefix|]];
    } else if |s| == |prefix| {
      assert s[..|prefix|] == s;
    }
  }

  lemma CoversSegments(scope: seq<string>, repo: seq<string>)
    requires scope != [] && repo != [] && Pieces(scope) && Pieces(repo)
    ensures HasSegmentPrefixFold(AbsPath(repo), AbsPath(scope)) <==> LowerAll(scope) <= LowerAll(repo)
  {
    CoversLowered(AbsPath(repo), AbsPath(scope));
    LowerAbsPath(repo);
    LowerAbsPath(scope);
    PiecesFree(scope);
    PiecesFree(repo);
    PathCovers(LowerAll(scope), LowerAll(repo));
  }

  lemma PathCovers(a: seq<string>, b: seq<string>)
    requires a != [] && b != [] && Free(a, '/') && Free(b, '/')
    ensures AbsPath(a) == AbsPath(b) || AbsPath(a) + "/" <= AbsPath(b) <==> a <= b
  {
    PrefixOfJoin(a, b, '/');
    BehindSlash(Join(a, '/') + ['/'], Join(b, '/'));
    assert AbsPath(a) + "/" == "/" + (Join(a, '/') + ['/']);
    if AbsPath(a) == AbsPath(b) {
      assert AbsPath(a)[1..] == Join(a, '/') && AbsPath(b)[1..] == Join(b, '/');
      JoinInjective(a, b, '/');
    }
    if a <= b && |a| == |b| {
      assert a == b;
    }
  }

  lemma BehindSlash(x: string, y: string)
    ensures "/" + x <= "/" + y <==> x <= y
  {
    assert ("/" + x)[1..] == x && ("/" + y)[1..] == y;
  }

  lemma PiecesFree(segs: seq<string>)
    requires Pieces(segs)
    ensures Free(LowerAll(segs), '/')
  {
    forall x | x in LowerAll(segs) ensures '/' !in x {
      var i :| 0 <= i < |segs| && x == ToLower(segs[i]);
      assert segs[i] in segs;
    }
  }

  lemma AddressTrimmed(u: Url, repo: seq<string>)
    requires Addresses(u, repo)
    ensures UrlPath(u) == AbsPath(repo)
  {
    var bare := AbsPath(repo);
    PieceEnds(repo);
    var suffix :| suffix in {"", "/", ".git", ".git/"} && u.path == bare + suffix;
    if suffix == "" {
      assert u.path == bare;
    } else if suffix == "/" {
      SuffixTrimmed(bare, "/");
    } else if suffix == ".git" {
      NoSlashEnd(bare, ".git");
      SuffixTrimmed(bare, ".git");
    } else {
      assert bare + ".git/" == (bare + ".git") + "/";
      SuffixTrimmed(bare + ".git", "/");
      SuffixTrimmed(bare, ".git");
    }
  }

  lemma SuffixTrimmed(s: string, suffix: string)
    ensures TrimSuffix(s + suffix, suffix) == s
  {
    assert (s + suffix)[|s|..] == suffix;
  }

  lemma NoSlashEnd(s: string, end: string)
    requires end != "" && '/' !in end
    ensures !HasSuffix(s + end, "/")
  {
    var whole := s + end;
    assert whole[|whole| - 1..] == [end[|end| - 1]];
  }

  /** What such a path ends with, its last name ends with. */
  lemma PieceEnds(segs: seq<string>)
    requires segs != [] && Pieces(segs)
    ensures !HasSuffix(AbsPath(segs), "/")
    ensures HasSuffix(AbsPath(segs), ".git") <==> HasSuffix(segs[|segs| - 1], ".git")
  {
    var n := |segs| - 1;
    var last := segs[n];
    assert last in segs;
    var front := if n == 0 then "/" else "/" + Join(segs[..n], '/') + "/";
    assert AbsPath(segs) == front + last by {
      if n > 0 {
        assert segs == segs[..n] + [last];
        JoinConcat(segs[..n], [last], '/');
      }
    }
    SuffixOfLast(front, last);
  }

  lemma SuffixOfLast(front: string, last: string)
    requires front != "" && front[|front| - 1] == '/' && last != "" && '/' !in last
    ensures !HasSuffix(front + last, "/")
    ensures HasSuffix(front + last, ".git") <==> HasSuffix(last, ".git")
  {
    var whole := front + last;
    NoSlashEnd(front, last);
    if |last| < 4 {
      assert |whole| >= 4 ==> whole[|whole| - 4..][3 - |last|] == '/';
    } else {
      assert whole[|whole| - 4..] == last[|last| - 4..];
    }
  }

  /**
   * A credential applies to a URL exactly when the hosts are the same, the account is if the URL names
   * one, and its scope's segments begin the repository's; all up to case, and however either path is
   * written.
   */
  lemma MatchesBySegments(c: HTTPSCredential, u: Url, scope: seq<string>, repo: seq<string>)
    requires Scoped(c, scope) && Addresses(u, repo)
    ensures Matches(c, u) <==>
            && ToLower(c.host) == ToLower(u.host)
            && (u.username == "" || ToLower(c.username) == ToLower(u.username))
            && LowerAll(scope) <= LowerAll(repo)
  {
    AddressTrimmed(u, repo);
    if scope != [] {
      PieceEnds(scope);
      assert CredPath(c) == AbsPath(scope);
      CoversSegments(scope, repo);
    }
  }

  /**
   * Of two credentials that apply, the one with the deeper scope is offered first; of equally deep
   * ones the earlier.
   */
  lemma SpecificFirst(
    creds: seq<HTTPSCredential>, u: Url, ranked: seq<nat>, a: nat, b: nat, x: seq<string>, y: seq<string>,
    repo: seq<string>)
    requires Ranking(creds, u, ranked) && a < |ranked| && b < |ranked| && Addresses(u, repo)
    requires Scoped(creds[ranked[a]], x) && Scoped(creds[ranked[b]], y)
    ensures |x| > |y| || (|x| == |y| && ranked[a] < ranked[b]) ==> a < b
  {
    var c, d := creds[ranked[a]], creds[ranked[b]];
    assert ranked[a] in ranked && ranked[b] in ranked;
    MatchesBySegments(c, u, x, repo);
    MatchesBySegments(d, u, y, repo);
    if |x| > |y| {
      DeeperIsLonger(c, d, x, y);
    } else if |x| == |y| {
      EqualLength(c, d, x, y);
    }
  }

  lemma LengthOfScope(c: HTTPSCredential, scope: seq<string>)
    requires Scoped(c, scope)
    ensures PathLen(c) == if scope == [] then -1 else |AbsPath(LowerAll(scope))|
  {
    if scope != [] {
      PieceEnds(scope);
      LowerAbsPath(scope);
    }
  }

  lemma DeeperIsLonger(c: HTTPSCredential, d: HTTPSCredential, x: seq<string>, y: seq<string>)
    requires Scoped(c, x) && Scoped(d, y) && |x| > |y| && LowerAll(y) <= LowerAll(x)
    ensures PathLen(c) > PathLen(d)
  {
    LengthOfScope(c, x);
    LengthOfScope(d, y);
    if y != [] {
      PiecesFree(x);
      PiecesFree(y);
      PrefixOfJoin(LowerAll(y), LowerAll(x), '/');
      assert |Join(LowerAll(y), '/') + ['/']| <= |Join(LowerAll(x), '/')|;
    }
  }

  lemma EqualLength(c: HTTPSCredential, d: HTTPSCredential, x: seq<string>, y: seq<string>)
    requires Scoped(c, x) && Scoped(d, y) && |x| == |y|
    requires exists repo :: LowerAll(x) <= LowerAll(repo) && LowerAll(y) <= LowerAll(repo)
    ensures PathLen(c) == PathLen(d)
  {
    var repo :| LowerAll(x) <= LowerAll(repo) && LowerAll(y) <= LowerAll(repo);
    assert LowerAll(x) == LowerAll(repo)[..|x|] == LowerAll(y);
    LengthOfScope(c, x);
    LengthOfScope(d, y);
  }

  // SSH keys.

  datatype SSHCredential = SSHCredential(host: string, key: string)

  function KeysFor(creds: seq<SSHCredential>, host: string): seq<string> {
    if creds == [] then []
    else
      var c := creds[|creds| - 1];
      KeysFor(creds[..|creds| - 1], host) + if c.host != "" && EqualFold(c.host, host) then [c.key] else []
  }

  function DefaultKeys(creds: seq<SSHCredential>): seq<string> {
    if creds == [] then []
    else
      var c := creds[|creds| - 1];
      DefaultKeys(creds[..|creds| - 1]) + if c.host == "" then [c.key] else []
  }

  method MatchSSHKeys(creds: seq<SSHCredential>, host: string) returns (keys: seq<string>)
    ensures keys == KeysFor(creds, host) + DefaultKeys(creds)
  {
    var hostKeys: seq<string>, defaults: seq<string> := [], [];
    for i := 0 to |creds|
      invariant hostKeys == KeysFor(creds[..i], host) && defaults == DefaultKeys(creds[..i])
    {
      assert creds[..i + 1][..i] == creds[..i];
      if creds[i].host == "" {
        defaults := defaults + [creds[i].key];
      } else if EqualFold(creds[i].host, host) {
        hostKeys := hostKeys + [creds[i].key];
      }
    }
    assert creds[..|creds|] == creds;
    return hostKeys + defaults;
  }

  /**
   * Wherever it is configured, a key for the host is among the host's in its place, and one for any
   * host among the defaults.
   */
  lemma KeysInPlace(a: seq<SSHCredential>, c: SSHCredential, b: seq<SSHCredential>, host: string)
    ensures KeysFor(a + [c] + b, host) == KeysFor(a, host)
              + (if c.host != "" && ToLower(c.host) == ToLower(host) then [c.key] else []) + KeysFor(b, host)
    ensures DefaultKeys(a + [c] + b) == DefaultKeys(a) + (if c.host == "" then [c.key] else []) + DefaultKeys(b)
  {
    assert a + [c] + b == (a + [c]) + b;
    KeysConcat(a + [c], b, host);
    assert (a + [c])[..|a|] == a;
    assert EqualFold(c.host, host) <==> ToLower(c.host) == ToLower(host);
  }

  lemma {:induction false} KeysConcat(a: seq<SSHCredential>, b: seq<SSHCredential>, host: string)
    ensures KeysFor(a + b, host) == KeysFor(a, host) + KeysFor(b, host)
    ensures DefaultKeys(a + b) == DefaultKeys(a) + DefaultKeys(b)
    decreases b
  {
    if b == [] {
      assert a + b == a;
    } else {
      assert (a + b)[..|a + b| - 1] == a + b[..|b| - 1];
      KeysConcat(a, b[..|b| - 1], host);
    }
  }

  /** The one key is the first of all the keys. */
  method MatchSSHKey(creds: seq<SSHCredential>, host: string) returns (key: Option<string>)
    ensures var keys := KeysFor(creds, host) + DefaultKeys(creds);
            key == if keys == [] then None else Some(keys[0])
  {
    var fallback := None;
    for i := 0 to |creds|
      invariant KeysFor(creds[..i], host) == []
      invariant fallback == if DefaultKeys(creds[..i]) == [] then None else Some(DefaultKeys(creds[..i])[0])
    {
      assert creds[..i + 1][..i] == creds[..i];
      if creds[i].host == "" {
        if fallback.None? {
          fallback := Some(creds[i].key);
        }
      } else if EqualFold(creds[i].host, host) {
        KeysForPrefix(creds, host, i + 1);
        return Some(creds[i].key);
      }
    }
    assert creds[..|creds|] == creds;
    return fallback;
  }

  lemma {:induction false} KeysForPrefix(creds: seq<SSHCredential>, host: string, n: nat)
    requires n <= |creds|
    ensures KeysFor(creds[..n], host) <= KeysFor(creds, host)
    decreases |creds| - n
  {
    if n < |creds| {
      assert creds[..n + 1][..n] == creds[..n];
      KeysForPrefix(creds, host, n + 1);
    } else {
      assert creds[..n] == creds;
    }
  }

  // The chain of sources for a remote.

  /** The sources besides the configured credentials: what each has to offer when asked. */
  datatype Ambient = Ambient(dynamic: Option<Auth>, helper: Option<Auth>, noSystemFallback: bool)

  function SourceOf(auth: Option<Auth>): Source {
    if auth.Some? then Offers(auth.value) else Declines
  }

  function Configured(creds: seq<HTTPSCredential>, ranked: seq<nat>): seq<Source>
    requires forall k :: 0 <= k < |ranked| ==> ranked[k] < |creds|
  {
    seq(|ranked|, k requires 0 <= k < |ranked| =>
      var c := creds[ranked[k]]; Offers(Credential(c.username, c.password)))
  }

  /** authCandidates for an HTTP(S) remote, given how its configured credentials rank. */
  function AuthCandidates(creds: seq<HTTPSCredential>, u: Url, ranked: seq<nat>, ambient: Ambient): seq<Source>
    requires forall k :: 0 <= k < |ranked| ==> ranked[k] < |creds|
  {
    if u.password.Some? then [Offers(Credential(u.username, u.password.value))]
    else
      Configured(creds, ranked) + AfterConfigured(u, ambient)
  }

  function AfterConfigured(u: Url, ambient: Ambient): seq<Source> {
    [SourceOf(ambient.dynamic)]
      + (if !ambient.noSystemFallback && u.scheme in {"https", "http"} then [SourceOf(ambient.helper)] else [])
      + (if u.username != "" then [Offers(Credential(u.username, ""))] else [])
  }

  lemma {:induction false} OfferedAll(sources: seq<Source>)
    requires forall s :: s in sources ==> s.Offers?
    ensures |Offered(sources)| == |sources| && forall i :: 0 <= i < |sources| ==> Offered(sources)[i] == sources[i].auth
    decreases sources
  {
    if sources != [] {
      assert sources[|sources| - 1] in sources;
      assert forall s :: s in sources[..|sources| - 1] ==> s in sources;
      OfferedAll(sources[..|sources| - 1]);
    }
  }

  function ListOf(auth: Option<Auth>): seq<Auth> {
    if auth.Some? then [auth.value] else []
  }

  /**
   * The chain offers, in this order: the secret in the URL and nothing else, if there is one;
   * otherwise every matching credential in its ranking, what the dynamic source has, what the system
   * helper has where it may be asked, and the bare username. A URL with a username is never cloned
   * anonymously.
   */
  lemma ChainOffers(creds: seq<HTTPSCredential>, u: Url, ranked: seq<nat>, ambient: Ambient)
    requires Ranking(creds, u, ranked)
    ensures var offered := Offered(AuthCandidates(creds, u, ranked, ambient));
            && (u.password.Some? ==> offered == [Credential(u.username, u.password.value)])
            && (u.password.None? ==>
                  && |ranked| <= |offered|
                  && (forall k :: 0 <= k < |ranked| ==>
                        offered[k] == Credential(creds[ranked[k]].username, creds[ranked[k]].password))
                  && offered[|ranked|..] ==
                       ListOf(ambient.dynamic)
                         + (if !ambient.noSystemFallback && u.scheme in {"https", "http"} then ListOf(ambient.helper)
                           else [])
                         + (if u.username != "" then [Credential(u.username, "")] else []))
  {
    if u.password.None? {
      OfferedConcat(Configured(creds, ranked), AfterConfigured(u, ambient));
      OfferedAll(Configured(creds, ranked));
      OfferedAfter(u, ambient);
    } else {
      OfferedAll(AuthCandidates(creds, u, ranked, ambient));
    }
  }

  lemma OfferedAfter(u: Url, ambient: Ambient)
    ensures Offered(AfterConfigured(u, ambient))
         == ListOf(ambient.dynamic)
              + (if !ambient.noSystemFallback && u.scheme in {"https", "http"} then ListOf(ambient.helper) else [])
              + (if u.username != "" then [Credential(u.username, "")] else [])
  {
    var dynamic := [SourceOf(ambient.dynamic)];
    var helper := if !ambient.noSystemFallback && u.scheme in {"https", "http"} then [SourceOf(ambient.helper)] else [];
    var bare := if u.username != "" then [SourceOf(Some(Credential(u.username, "")))] else [];
    assert AfterConfigured(u, ambient) == dynamic + helper + bare;
    OfferedConcat(dynamic + helper, bare);
    OfferedConcat(dynamic, helper);
    OfferedOne(ambient.dynamic);
    OfferedOne(ambient.helper);
    OfferedOne(Some(Credential(u.username, "")));
  }

  lemma OfferedOne(auth: Option<Auth>)
    ensures Offered([SourceOf(auth)]) == ListOf(auth)
  {
    assert Offered([SourceOf(auth)][..0]) == [];
  }
}
