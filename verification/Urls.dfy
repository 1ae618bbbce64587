/** Normal forms of subdirectories and remote URLs (protocols/git/git.go). */
module Urls {
  import opened Options
  import opened Strings
  import opened Paths
  import opened Cone

  // Subdirectories.

  /** strings.Trim(s, "/"). */
  function TrimSlashes(s: string): string {
    if s == "" then s
    else if s[0] == '/' then TrimSlashes(s[1..])
    else if s[|s| - 1] == '/' then TrimSlashes(s[..|s| - 1])
    else s
  }

  function ResolveSubdir(pathSubdir: string, querySubdir: string): string {
    TrimSlashes(Clean("/" + (if pathSubdir == "" then querySubdir else pathSubdir)))
  }

  /** The first "//" in s, or none. */
  function DoubleSlash(s: string): (at: Option<nat>)
    ensures at.Some? ==> at.value + 2 <= |s|
  {
    if |s| < 2 then None
    else if s[0] == '/' && s[1] == '/' then Some(0)
    else match DoubleSlash(s[1..])
         case None => None
         case Some(i) => Some(i + 1)
  }

  /** splitSubdir: the repository path and the subdirectory. */
  function SplitSubdir(path: string): (string, string) {
    match DoubleSlash(path)
    case Some(i) => (path[..i], TrimPrefix(path[i + 2..], "/"))
    case None => (path, "")
  }

  /** The names a requested subdirectory comes down to. */
  function SubdirNames(requested: string): seq<string> {
    Resolve([], Split(requested, '/'), true)
  }

  lemma SlashIsIgnored(s: string)
    ensures CleanSegs("/" + s) == SubdirNames(s)
  {}

  /** The result is names joined by slashes: it has no empty, "." or ".." segment. */
  lemma SubdirIsNames(pathSubdir: string, querySubdir: string)
    ensures var requested := if pathSubdir == "" then querySubdir else pathSubdir;
            && Names(SubdirNames(requested))
            && ResolveSubdir(pathSubdir, querySubdir) == Join(SubdirNames(requested), '/')
  {
    var requested := if pathSubdir == "" then querySubdir else pathSubdir;
    SlashIsIgnored(requested);
    CleanRooted("/" + requested);
    var names := SubdirNames(requested);
    assert Clean("/" + requested) == "/" + Join(names, '/');
    assert ("/" + Join(names, '/'))[1..] == Join(names, '/');
    if names != [] {
      JoinedEnds(names);
      assert TrimSlashes(Join(names, '/')) == Join(names, '/');
    } else {
      assert TrimSlashes("") == "";
    }
  }

  /** Cleaning a subdirectory again changes nothing. */
  lemma ResolveSubdirIdempotent(pathSubdir: string, querySubdir: string)
    ensures var r := ResolveSubdir(pathSubdir, querySubdir);
            ResolveSubdir(r, "") == r && ResolveSubdir("", r) == r
  {
    SubdirIsNames(pathSubdir, querySubdir);
    var r := ResolveSubdir(pathSubdir, querySubdir);
    var names := SubdirNames(if pathSubdir == "" then querySubdir else pathSubdir);
    SubdirIsNames(r, "");
    SubdirIsNames("", r);
    if names == [] {
      assert SubdirNames("") == [] by { assert Split("", '/') == [""] && [""][1..] == []; }
    } else {
      SplitJoin(names, '/');
      ResolveNames([], names, true);
      assert [] + names == names;
    }
  }

  /** So the directories above it are the joins of exactly its proper prefixes. */
  lemma AncestorsOfSubdir(pathSubdir: string, querySubdir: string)
    ensures var names := SubdirNames(if pathSubdir == "" then querySubdir else pathSubdir);
            var dirs := Ancestors(ResolveSubdir(pathSubdir, querySubdir));
            if names == [] then dirs == [""]
            else |dirs| == |names| && forall i :: 0 <= i < |names| ==> dirs[i] == Join(names[..i], '/')
  {
    SubdirIsNames(pathSubdir, querySubdir);
    var names := SubdirNames(if pathSubdir == "" then querySubdir else pathSubdir);
    if names != [] {
      AncestorsOf(names);
    }
  }

  lemma {:induction false} FirstDoubleSlash(repo: string, sub: string)
    requires DoubleSlash(repo).None? && !HasSuffix(repo, "/")
    ensures DoubleSlash(repo + "//" + sub) == Some(|repo|)
  {
    var whole := repo + "//" + sub;
    if repo != "" {
      assert whole[1..] == repo[1..] + "//" + sub;
      assert repo[|repo| - 1..] == [repo[|repo| - 1]];
      if |repo| > 1 {
        assert whole[1] == repo[1];
        assert repo[1..][|repo| - 2..] == repo[|repo| - 1..];
      }
      FirstDoubleSlash(repo[1..], sub);
    }
  }

  /**
   * The "//sub" and "?subdir=sub" spellings name the same directory of the same repository; nothing
   * behind the slashes, or one more of them, leaves it to the query.
   */
  lemma SpellingsAgree(repo: string, sub: string, query: string)
    requires DoubleSlash(repo).None? && !HasSuffix(repo, "/")
    ensures var (path, subdir) := SplitSubdir(repo + "//" + sub);
            path == repo && ResolveSubdir(subdir, query) == ResolveSubdir("", if sub in {"", "/"} then query else sub)
    ensures SplitSubdir(repo) == (repo, "")
  {
    FirstDoubleSlash(repo, sub);
    var whole := repo + "//" + sub;
    assert whole[..|repo|] == repo && whole[|repo| + 2..] == sub;
    var subdir := TrimPrefix(sub, "/");
    assert "/" <= sub ==> sub == "/" + subdir;
    assert sub == "/" ==> subdir == "";
    assert subdir == "" ==> sub == "" || sub == "/";
    SubdirIsNames(subdir, query);
    SubdirIsNames("", sub);
    if "/" <= sub && subdir != "" {
      assert sub == "/" + subdir;
      SlashIsIgnored(subdir);
      assert Split("/" + subdir, '/') == [""] + Split(subdir, '/') by { assert ("/" + subdir)[1..] == subdir; }
      assert Rooted(sub);
    }
  }

  // Remotes.

  /** A remote without port, query or escapes: user@host:path, or scheme://user@host/path. */
  datatype Remote =
    | Scp(user: string, host: string, path: string)
    | Url(scheme: string, userinfo: Option<string>, host: string, path: string)

  const AZURE_HTTPS := "dev.azure.com"
  const AZURE_SSH := "ssh.dev.azure.com"

  /** The segments behind the leading slash. */
  function Segments(path: string): (parts: seq<string>)
    ensures |parts| >= 1
  {
    Split(TrimPrefix(path, "/"), '/')
  }

  function HttpsToSsh(u: Remote): Option<Remote>
    requires u.Url?
  {
    var path := TrimPrefix(u.path, "/");
    if u.host == "" then None
    else if u.host == AZURE_HTTPS then
      var parts := Segments(u.path);
      if |parts| >= 4 && parts[2] == "_git" then
        Some(Url("ssh", Some("git"), AZURE_SSH, AbsPath(["v3", parts[0], parts[1], parts[3]])))
      else None
    else
      var bare := TrimSuffix(path, ".git");
      if bare == "" then None else Some(Url("ssh", Some("git"), u.host, "/" + bare + ".git"))
  }

  function SshToHttps(r: Remote): Remote {
    match r
    case Scp(_, host, path) => AzureDevOps(Url("https", None, host, "/" + path))
    case Url(scheme, _, host, path) => if scheme == "ssh" then AzureDevOps(Url("https", None, host, path)) else r
  }

  function AzureDevOps(u: Remote): Remote
    requires u.Url?
  {
    var parts := Segments(u.path);
    if !AzureRewrites(u.host, parts) then u
    else u.(host := AZURE_HTTPS, path := AbsPath([parts[1], parts[2], "_git", parts[3]]))
  }

  predicate AzureRewrites(host: string, parts: seq<string>) {
    host == AZURE_SSH && |parts| >= 4 && parts[0] == "v3"
  }

  /** A plain HTTPS remote, with at least a slash for its path. */
  predicate PlainHttps(u: Remote) {
    u.Url? && u.scheme == "https" && u.userinfo == None && Rooted(u.path)
  }

  lemma SegmentsOf(parts: seq<string>)
    requires |parts| > 0 && Free(parts, '/')
    ensures Segments(AbsPath(parts)) == parts
  {
    assert AbsPath(parts)[1..] == Join(parts, '/');
    SplitJoin(parts, '/');
  }

  /**
   * Azure DevOps: where the conversion applies, converting back restores the remote exactly when
   * its path has the four segments org/project/_git/repo; any further ones are lost.
   */
  lemma AzureRoundTrip(u: Remote)
    requires PlainHttps(u) && u.host == AZURE_HTTPS && HttpsToSsh(u).Some?
    ensures SshToHttps(HttpsToSsh(u).value) == u <==> |Segments(u.path)| == 4
  {
    var parts := Segments(u.path);
    JoinSplit(TrimPrefix(u.path, "/"), '/');
    assert u.path == AbsPath(parts);
    AzureThereAndBack(parts[0], parts[1], parts[3]);
    SegmentsOf([parts[0], parts[1], "_git", parts[3]]);
    FourSegments(parts);
  }

  lemma FourSegments(parts: seq<string>)
    requires |parts| >= 4 && parts[2] == "_git"
    ensures |parts| == 4 <==> parts == [parts[0], parts[1], "_git", parts[3]]
  {}

  lemma AzureThereAndBack(org: string, project: string, repo: string)
    requires '/' !in org && '/' !in project && '/' !in repo
    ensures SshToHttps(Url("ssh", Some("git"), AZURE_SSH, AbsPath(["v3", org, project, repo])))
         == Url("https", None, AZURE_HTTPS, AbsPath([org, project, "_git", repo]))
  {
    SegmentsOf(["v3", org, project, repo]);
  }

  /**
   * Any other host: converting back restores the remote exactly when its path ends in ".git", which
   * the SSH form always does, and the path is not one that Azure DevOps's SSH host rewrites.
   */
  lemma PlainRoundTrip(u: Remote)
    requires PlainHttps(u) && u.host != AZURE_HTTPS && HttpsToSsh(u).Some?
    ensures SshToHttps(HttpsToSsh(u).value) == u <==>
            HasSuffix(u.path, ".git") && !AzureRewrites(u.host, Segments(u.path))
  {
    var ssh := HttpsToSsh(u).value;
    SshPath(TrimPrefix(u.path, "/"));
    assert u.path == "/" + TrimPrefix(u.path, "/");
    if ssh.path == u.path {
      assert HasSuffix(u.path, ".git");
    }
  }

  lemma SshPath(path: string)
    ensures var ssh := "/" + TrimSuffix(path, ".git") + ".git";
            HasSuffix(ssh, ".git") && (HasSuffix("/" + path, ".git") <==> ssh == "/" + path)
  {
    var whole := "/" + path;
    if HasSuffix(whole, ".git") {
      assert |path| >= 4 by { assert whole[|whole| - 4] == '.'; }
      assert whole[|whole| - 4..] == path[|path| - 4..];
      assert path == path[..|path| - 4] + path[|path| - 4..];
    }
  }

  /**
   * What the SSH form is: for Azure DevOps the path "v3" with organisation, project and repository on
   * its SSH host; elsewhere the same path on the same host with exactly one ".git" behind it, whether
   * the remote wrote one or not. Remotes without a host or a repository have none.
   */
  lemma SshForm(u: Remote, repo: string)
    requires PlainHttps(u) && u.host != AZURE_HTTPS && !HasSuffix(repo, ".git") && !("/" <= repo)
    requires u.path in {"/" + repo, "/" + repo + ".git"}
    ensures HttpsToSsh(u) ==
            if u.host == "" || repo == "" then None else Some(Url("ssh", Some("git"), u.host, "/" + repo + ".git"))
  {
    var path := TrimPrefix(u.path, "/");
    assert path in {repo, repo + ".git"} by {
      assert ("/" + repo)[1..] == repo && ("/" + repo + ".git")[1..] == repo + ".git";
    }
    assert TrimSuffix(path, ".git") == repo by { assert (repo + ".git")[|repo|..] == ".git"; }
  }

  lemma AzureForm(u: Remote, parts: seq<string>)
    requires PlainHttps(u) && u.host == AZURE_HTTPS && u.path == AbsPath(parts)
    requires parts != [] && Free(parts, '/')
    ensures HttpsToSsh(u) ==
            if |parts| >= 4 && parts[2] == "_git"
            then Some(Url("ssh", Some("git"), AZURE_SSH, AbsPath(["v3", parts[0], parts[1], parts[3]]))) else None
  {
    SegmentsOf(parts);
  }

  /**
   * Back: any other scheme is left alone, and an SSH remote keeps its host and path, save on Azure
   * DevOps's SSH host, where "v3" with three segments behind it becomes the path with "_git".
   */
  lemma HttpsForm(u: Remote, parts: seq<string>)
    requires u.Url? && u.path == AbsPath(parts) && parts != [] && Free(parts, '/')
    ensures SshToHttps(u) ==
            if u.scheme != "ssh" then u
            else if u.host == AZURE_SSH && |parts| >= 4 && parts[0] == "v3"
            then Url("https", None, AZURE_HTTPS, AbsPath([parts[1], parts[2], "_git", parts[3]]))
            else Url("https", None, u.host, u.path)
  {
    SegmentsOf(parts);
  }

  /** The SCP and ssh:// spellings of a remote lead to the same HTTPS remote. */
  lemma ScpAgrees(user: string, host: string, path: string, userinfo: Option<string>)
    ensures SshToHttps(Scp(user, host, path)) == SshToHttps(Url("ssh", userinfo, host, "/" + path))
  {}

  /** From SSH and back: the Azure DevOps form comes back to itself when it has just its four segments. */
  lemma AzureSshRoundTrip(org: string, project: string, repo: string)
    requires '/' !in org && '/' !in project && '/' !in repo
    ensures var ssh := Url("ssh", Some("git"), AZURE_SSH, AbsPath(["v3", org, project, repo]));
            HttpsToSsh(SshToHttps(ssh)) == Some(ssh)
  {
    AzureThereAndBack(org, project, repo);
    SegmentsOf([org, project, "_git", repo]);
  }
}
