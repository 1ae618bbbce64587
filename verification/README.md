# Downloading from git, and the checks around it

grabber downloads files from places it is pointed at. Its git side is a stack of fallbacks: URL schemes around a
credential chain, and inside that a sparse partial clone, a fetch of one pinned commit, a full clone, and at the very
end the hosting platform's tarball. This project models that stack and the loops it leans on, and proves what they
promise.

The remote is data (`Remotes`): references, HEAD, commits, trees and blobs, whether it serves only advertised commits,
and which credentials it accepts. What it answers is a function of the moment and the request, so every phrasing of a
refusal and every partial reply is some network; `Honest` says which answers are true. An error is the set of sentinels
it wraps, so `errors.Is` is membership and joining is union. The destination is a class whose files each carry the
attempt that wrote them.

| file | what it holds |
|---|---|
| `Options`, `Strings`, `Paths` | the string and path operations of Go that the code calls, with their laws |
| `SafePath`, `LocalFiles`, `Urls` | containment of paths, resolving local paths, normal forms of subdirectories and remotes |
| `GitObjects`, `Cone`, `Checkout`, `Archive`, `Budget` | trees and walks, what a subdirectory download selects, writing it, tarballs, byte budgets |
| `Refs`, `Remotes`, `Engine`, `Download` | references and hashes, remotes, the download as a function, and the same as methods over a directory |
| `NoStaleFiles`, `Verdicts`, `Markers`, `Stages`, `Fallback`, `RefResolution`, `FirstSpelling`, `ShortHash`, `SparseUsed`, `Requests` | what holds of every download of one URL with one credential |
| `CredentialWalk`, `Candidates` | what holds of the chain of credentials, and of the URLs tried |
| `Credentials`, `Netrc` | choosing credentials, reading a netrc file |
| `LookupCache`, `Addresses`, `Ssrf` | the shared lookup cache, IPv4 addresses inside IPv6 ones, the guard's two checks |

`Engine` is the specification: the same branches as a function of the destination and the remotes. The methods of
`Download`, which loop and update a directory and a repository as the code does, are proved equal to it, and the
properties are proved of it for every input.

## Findings

Some properties hold only under a condition the code does not check. Each has the lemma that says when.

- A pinned commit can be lost to git, which leaves only the platform's tarball. Where HEAD resolves, a commit the remote
  has is sure to be downloaded exactly when the server serves it by hash, which a restricted one does for what it
  advertises and any other for all that this leads to, or it lies within the clone depth of a branch or tag. On a
  restricted server the history of another reference, such as a merge request's, is not enough. Where HEAD does not
  resolve it is sure exactly when the server serves it by hash and no subdirectory is asked for: the sparse stage
  anchors on HEAD, and its "reference not found" is final, even for the tip of a branch
  (`Fallback.LostExactlyOffBranches`).
- A named reference can silently become another. A download by name that succeeds leaves the files of the first
  spelling that exists, unless a clone can slip past it: where submodules are to be initialised and the first spelling
  lists one, the "not found" or "empty repository" of the submodule's repository passes for a missing reference, and a
  later spelling with other files is taken (`FirstSpelling.FirstSpellingExact`, and a remote where it happens in
  `FirstSpelling.BranchBecomesTag`).
- A definitive verdict, after which no other transport is tried, can be wrong. For a full hash the remote has and
  something it advertises leads to, none is ever wrong exactly when HEAD resolves and no submodule of the commit is to
  be initialised (`Verdicts.HashVerdictsExact`); for a short hash exactly when HEAD resolves and that holds of every
  commit it may be checked out as (`ShortHash.ShortVerdictsExact`); for a name exactly when one of its spellings, or for
  no name HEAD, is there without submodules to be initialised, or none is there (`Verdicts.NamedVerdictsExact`). A
  remote without references, or without a match for the hash, is beyond doubt.
- The sparse path and the full clone can take a short hash for different commits: exactly when the only match in HEAD's
  history, which is not HEAD, differs from the only match within the clone depth of the branches and tags. That needs a
  clone depth, or a HEAD off every branch (`ShortHash.ShortHashExact`). Without, the sparse path may still resolve one
  that is ambiguous in the full clone (`ShortHash.SparseAgreesWithFull`).
- `commitComplete` passes over blobs of the legacy group-writable mode, so a store it accepts checks out exactly when
  those are present too (`Checkout.CompleteChecksOut`).
- A byte limit of 2^63-1 wraps to a negative one when one is added, and every file comes out empty; the one-past read is
  right exactly below that limit (`Budget.TakeExactIffNoWrap`).
- Below the root "/" the string test for containment accepts nothing but "/" itself, both in `safepath.Join` and in the
  list of allowed local directories (`SafePath.JoinExactIffNotSlash`, `LocalFiles.WithinIsContainment`).
- A subdirectory that names a file is found in a tarball and an error in a tree (`Archive.FileAsSubdirDiffers`).
- A host with a trailing dot is rewritten by the proxied check only. Passing it still means passing the direct check
  exactly when the allow list has the dotted name too, the undotted name does not settle the matter by itself, or the
  guard blocks nothing (`Ssrf.RewrittenSuffices`).

One comment is out of date:

- The comment at `protocols/git/git_archive.go:38-40` says that the subdirectory prefix is stripped; the code keeps
  repository-relative paths, and the model follows the code.

## Model

| member | source | states |
|---|---|---|
| Cone.AncestorDirs | protocols/git/sparse.go:336-346 | the loop returns the proper prefixes of the subdirectory, shortest first, and the root alone for none |
| Cone.AncestorsOf | protocols/git/sparse.go:336-346 | for a subdirectory made of names, its ancestors are exactly the joins of its proper prefixes |
| Cone.SelectRows | protocols/git/sparse.go:277-328 | selecting succeeds exactly when the commit's tree can be read down to and throughout the subdirectory, and goes through the cone's entries in order |
| Cone.SelectIsCone | protocols/git/sparse.go:267-328 | a file is selected, with its repository path, mode and blob, exactly when the whole tree has it and it lies in the cone, and no path twice |
| Cone.ConeRowsExact | protocols/git/sparse.go:291-325 | the entries walked are exactly the tree's entries in the cone, each once |
| Cone.SubmodulesInCone | protocols/git/sparse.go:258-268 | the submodules noted are exactly those in the cone, each at its repository path |
| Checkout.SparseEntries | protocols/git/sparse.go:277-328 | the walk over a stored commit computes the selection, or fails where a commit or tree is missing |
| Checkout.Wants | protocols/git/sparse.go:360-377 | the hashes asked for have no duplicate and are exactly the selected ones the store lacks |
| Checkout.Materialise | protocols/git/sparse.go:446-468 | writes each entry below the destination and stops at the first that escapes or is missing, leaving what was written |
| Checkout.SparseRefinesCheckout | protocols/git/sparse.go:61-96 | selecting and writing into an empty directory leaves exactly the full checkout's files in the cone, same modes and contents, for every tree |
| Checkout.CommitComplete | protocols/git/pinned.go:155-181 | succeeds exactly when the commit, every tree under it and every blob it writes are in the store |
| Checkout.CompleteChecksOut | protocols/git/pinned.go:99-105 | after it succeeds a checkout meets no missing object exactly when the legacy-mode blobs are present |
| Checkout.LegacyBlobPassesCheck | protocols/git/sparse.go:349-351 | a concrete store that is complete by the check and cannot be checked out |
| Archive.ExtractArchive | protocols/git/git_archive.go:154-225 | the loop over a tarball leaves the files and the outcome of the extraction function, charging only selected entries |
| Archive.WriteArchiveFile | protocols/git/git_archive.go:259-284 | a file within the budget is written whole and charged its size; one past it is cut off one byte past the budget and stops the extraction |
| Archive.WritesWithinBudget | protocols/git/git_archive.go:154-217 | for every archive and limit, a run that is not out of budget has written the limit minus what remains, never below zero, and one that is has written exactly one byte past the limit |
| Archive.NameStaysInside | protocols/git/git_archive.go:174-204 | every name the ".." test lets through is one that `safepath.Join` accepts once the top directory is stripped |
| Archive.DotDotExact | protocols/git/git_archive.go:288-298 | on names without backslashes the test finds ".." exactly where it is a segment of its own |
| Archive.SelectsFile | protocols/git/git_archive.go:231-253 | on a file the predicate over strings is the cone, and its second answer says that it lies at or under the subdirectory |
| Archive.SelectsDir | protocols/git/git_archive.go:231-244 | on a directory entry it is lying at or under the subdirectory |
| Archive.ArchiveIsCone | protocols/git/git_archive.go:154-225 | for every tree and every order of its entries: out of budget exactly when the cone's files exceed it, otherwise exactly the cone's files, and "not found" exactly when nothing lies at or under the subdirectory |
| Archive.TopDirFixed | protocols/git/git_archive.go:178-186 | the directory stripped is the first element of the first entry's name, headers apart, for all entries |
| Archive.OnlyFirstTopStripped | protocols/git/git_archive.go:178-217 | a file in that directory loses it, any other keeps its whole name |
| Archive.ArchiveMatchesSparse | protocols/git/git_archive.go:145-154 | a tarball and the sparse path leave the same files |
| Archive.FileAsSubdirDiffers | protocols/git/git_archive.go:231-234 | a subdirectory naming a file is selected in a tarball and an error in a tree |
| Budget.TakeExactIffNoWrap | extract/extract.go:330-336 | reading one past the remaining budget accepts what fits, whole, and notices the rest exactly when adding one does not wrap |
| Budget.Copy | internal/limitio/limitio.go:19-33 | for every limit: how much is copied and when it fails, including no limit and the limit that wraps |
| Budget.Extractor.WriteFile | extract/extract.go:317-340 | an entry is accepted exactly when it fits, and the budget goes down by its size and by nothing else |
| Budget.Extractor.Unpack | extract/extract.go:162-237 | succeeds exactly when every name stays inside and the written entries fit together; the budget is the limit minus what was accepted and never negative; a failing run wrote at most one byte past it |
| Budget.LastMemberStays | extract/extract.go:162-237 | each file has the content of the last member written there |
| Budget.OthersLeaveIt | extract/extract.go:162-237 | members that land elsewhere leave a file as it was |
| Budget.EachIsCharged | extract/extract.go:182-237 | wherever it stands, a written member charges its size and any other nothing; a tarball writes regular files, a zip archive all but directories |
| SafePath.JoinContains | internal/safepath/safepath.go:17-24 | for every absolute root but "/" and every path: accepted exactly when root's segments start those of the cleaned joined path, which is returned |
| SafePath.JoinAtSlash | internal/safepath/safepath.go:17-24 | at the root "/" only "/" itself is accepted |
| SafePath.JoinExactIffNotSlash | internal/safepath/safepath.go:17-24 | the test means containment for every path exactly when the root is not "/" |
| SafePath.JoinNames | protocols/git/sparse.go:512-519 | a repository path made of names lands at the root, a slash and that path |
| SafePath.NoDotDotStays | internal/safepath/safepath.go:17-24 | a path without a ".." segment never escapes |
| SafePath.ParentCancels | internal/safepath/safepath.go:17-24 | a name and the ".." behind it cancel out wherever they stand |
| SafePath.UpsClimb | internal/safepath/safepath.go:17-24 | leading ".." segments climb one directory each, and no higher than the top |
| RefResolution.NamePrecedence | protocols/git/git.go:734-785 | a qualified name means itself; otherwise the branch comes before the tag, and the tag before any other namespace, which a slash in the name allows |
| Refs.TagSpellings | protocols/git/git.go:734-785 | "tags/x" and "refs/tags/x" ask for that tag alone, and a bare name also asks for it |
| Refs.HeadOrName | protocols/git/git.go:734-772 | seven to forty hexadecimal digits, or no reference, make a clone of HEAD; anything else names what is cloned |
| Refs.ResolveCommitHash | protocols/git/git.go:1386-1427 | answers a commit exactly when it is the one the full or abbreviated hash stands for; none or several matches are an error |
| Refs.HashCaseIgnored | protocols/git/git.go:1386-1427 | a hash written in either case stands for the same commit |
| ShortHash.SparseAgreesWithFull | protocols/git/sparse.go:174-213 | with HEAD on a branch or tag and no clone depth, what the sparse path finds is among the full clone's commits, and is what the full clone finds unless it meets a further match |
| ShortHash.FullLeavesFinding | protocols/git/git.go:617-633 | a full clone that succeeds then leaves the files of the commit the sparse path found |
| ShortHash.SparseLeavesFinding | protocols/git/sparse.go:149-215 | a sparse download of a short hash that succeeds leaves exactly the cone of the commit found, HEAD or the only match in its history |
| ShortHash.ShortLeavesTaken | protocols/git/git.go:548-633 | whatever a short hash downloads, over all stages, is the files or the cone of a commit that the sparse or the full path may take it for |
| ShortHash.ShortHashExact | protocols/git/git.go:1362-1427 | over every honest answer the two never differ exactly when no two commits are, one HEAD or the only match in its history, the other the only match among what the full clone is sure to bring; with HEAD on a branch or tag and no depth there are none |
| ShortHash.TornMeans | protocols/git/sparse.go:174-213 | those two are the only match in HEAD's history, which is not HEAD, and the only one within the clone depth of branches and tags |
| ShortHash.ShortVerdictsExact | protocols/git/git.go:387-392 | for a short hash, no verdict is ever wrong exactly when HEAD resolves and no commit it may be checked out as has submodules to be initialised, or nothing matches |
| NoStaleFiles.NoFileSurvivesAFailedAttempt | protocols/git/git.go:328-379 | over every run from an empty directory, if it reports success then every file was written by the one attempt that succeeded |
| NoStaleFiles.GitStamped | protocols/git/git.go:468-536 | the same for one URL's credential chain |
| NoStaleFiles.StageStamped | protocols/git/git.go:548-669 | the same for one credential, over the sparse, pinned and full stages |
| NoStaleFiles.LeftoversStay | protocols/git/git.go:590-606 | there is something to clean: what a failed full clone of a hash leaves behind stays, with that attempt's stamp |
| Verdicts.DefinitiveVerdictsSound | protocols/git/git.go:387-392 | wherever verdicts can be relied on, a definitive error means the context was done, the repository is empty, or it lacks the commit or reference; with or without submodules and a subdirectory |
| Markers.MarkersNeverEscape | protocols/git/git.go:548-590 | whatever the remote does, honest or not, no error returned carries either marker of the stages |
| Verdicts.HashVerdictsExact | protocols/git/git.go:548-650 | for a full hash the remote has, no verdict is ever wrong exactly when HEAD resolves and no submodule of the commit is to be initialised, or nothing advertised leads to it |
| Verdicts.NamedVerdictsExact | protocols/git/git.go:602-615 | for a name, or none and so HEAD, no verdict is ever wrong exactly when a spelling is there without submodules to be initialised, or none is there at all |
| Verdicts.RefusalMeansMissing | protocols/git/pinned.go:115-150 | which refusals of a commit become "reference not found", and that nothing the remote advertises then leads to it |
| Verdicts.SparseStageErr | protocols/git/sparse.go:100-170 | an error of the sparse stage either carries its marker, and another stage is tried, or is sound |
| Verdicts.PinnedStageErr | protocols/git/pinned.go:82-103 | an error of the pinned stage either carries its marker or is sound |
| Stages.PinnedMakesWay | protocols/git/pinned.go:58-106 | by what the server answers: a whole commit is prepared, an incomplete one and every failure but those that settle the matter lead to a full clone in an emptied directory, and which failures settle it |
| Stages.OnlyFullHashesPinned | protocols/git/pinned.go:43-45 | names and short hashes go to the full clone at once |
| Stages.AnchorMakesWay | protocols/git/sparse.go:100-135 | a failed first clone for a subdirectory ends the download exactly when it carries one of the four sentinels; otherwise the next stage starts from an emptied directory |
| Fallback.PinnedCommitIsNeverLost | protocols/git/git.go:548-650 | for every honest remote, restricted or not, any phrasing of a refusal and any partial pack, with or without submodules: a full hash of HEAD or of a commit within the clone depth of a branch or tag, where HEAD resolves, or of one that the server serves by hash, ends with that commit's files; with a subdirectory HEAD has to resolve |
| Fallback.LostExactlyOffBranches | protocols/git/sparse.go:100-135 | on any server a commit it has is guaranteed exactly when it is served by hash or, where HEAD resolves, lies within the clone depth of a branch or tag; without a HEAD only when it is served by hash and no subdirectory is asked for |
| Fallback.FullCloneFinds | protocols/git/git.go:590-633 | the full clone of such a commit succeeds whatever is refused by hash |
| Fallback.PinnedStage | protocols/git/pinned.go:58-106 | the pinned stage has the whole commit, or steps aside with its marker, or nothing advertised leads to the commit; it has it where the server serves it by hash |
| Fallback.SparseStage | protocols/git/sparse.go:61-96 | the sparse stage either leaves the commit's cone or steps aside with its marker |
| Fallback.SecuredIsLeft | protocols/git/git.go:468-536 | with a chain of credentials in front: when the turn comes to one the remote accepts, every earlier one rejected, a commit that is sure to be had is what is left |
| SparseUsed.SubdirectoryAlone | protocols/git/sparse.go:61-96 | against a server that serves partial clones, for names, full and short hashes: exactly the cone of the commit asked for is left, unless submodules are wanted and one lies in it; then, and only then, the next stage runs |
| SparseUsed.AbsentEndsAtOnce | protocols/git/sparse.go:81-84 | a subdirectory that is no directory of the commit ends the download with "object not found" |
| SparseUsed.NothingWrittenAtSlash | protocols/git/sparse.go:446-468 | below the root "/" the sparse stage writes nothing and its error is final |
| SparseUsed.GenerousIsObliging | protocols/git/sparse.go:100-135 | such a server exists for every remote that has what it advertises, and is honest |
| Requests.AsksForNothingElse | protocols/git/git.go:548-669 | a download depends on no answer but to requests with its own credential, of the stated depth and shape: partial single-branch clones for a subdirectory, one commit and blobs of its cone by hash |
| Requests.UntriedIsNeverSent | protocols/git/git.go:487-536 | nor does the credential chain depend on any answer to a credential whose turn did not come |
| RefResolution.NamedReference | protocols/git/git.go:687-785 | for every name, and for none and so HEAD, on the sparse and the full path, and where wanted submodules initialise, the download leaves the files of the first listed spelling that exists, or those in the subdirectory's cone, and fails with "reference not found" when none exists, whichever way the server signals a missing one; for HEAD the server's signal is passed on |
| RefResolution.SparseLands | protocols/git/sparse.go:100-135 | the sparse stage leaves that spelling's cone or steps aside with its marker |
| FirstSpelling.FirstSpellingExact | protocols/git/git.go:687-728 | over every honest answer, submodules failing included, a success leaves the first existing spelling's files exactly when no clone can slip to a later one with other files |
| FirstSpelling.SlipsBySubmodule | protocols/git/git.go:597-606 | that takes submodules to be initialised, one listed at the first existing spelling, and a later one that exists |
| FirstSpelling.BranchBecomesTag | protocols/git/git.go:687-692 | a remote with a branch that lists a submodule and a tag of the same name, where a success can leave the tag's files |
| FirstSpelling.AbsentSubdirFails | protocols/git/git.go:652-668 | a subdirectory that the tip does not have fails the download, on either path |
| CredentialWalk.ChainIsLazy | protocols/git/git.go:487-517 | the credentials tried are those offered by a prefix of the chain, all but the last rejected; a source is resolved only once every earlier one declined or was rejected |
| CredentialWalk.ChainOutcome | protocols/git/git.go:519-536 | anonymous exactly when every source declined; "tried N, all rejected" exactly when N is at least two, all offers were tried and each was rejected |
| CredentialWalk.GitByCredentials | protocols/git/git.go:487-536 | each turn clones with the credential offered, from an emptied directory after the first, as long as the earlier failed authentication; the result is the last turn's files and stamp, or its error, or all errors joined |
| CredentialWalk.GitWithoutCredentials | protocols/git/git.go:519-523 | with no credential offered the clone is anonymous and its result is the download's |
| CredentialWalk.GuardFirst | protocols/git/git.go:468-476 | a host the guard refuses is not contacted |
| Candidates.DownloadCourse | protocols/git/git.go:328-379 | the download succeeds at the first URL that does, each earlier one having failed its probe or failed without one of the four sentinels; with none, exactly when the tarball may be tried and extracts, leaving its files; otherwise its error joins those of all URLs tried; and there is exactly one such course |
| Download.CloneInto | protocols/git/git.go:700-728 | the loop over spellings, emptying the directory before each, ends as the specification does in result, error and files |
| Download.ResolvePinned | protocols/git/sparse.go:174-213 | the commit, store and error of the specification, for full and short hashes |
| Download.SparseAnchorClone | protocols/git/sparse.go:100-135 | a bare partial clone, its errors marked unless they are definitive |
| Download.BlobsInto | protocols/git/sparse.go:360-381 | nothing is fetched when nothing is missing; otherwise the wanted blobs, any failure marked |
| Download.Sparse | protocols/git/sparse.go:61-96 | the stage leaves the state, error and stamp of the specification |
| Download.PinnedClone | protocols/git/pinned.go:58-106 | the repository, and the error with or without the marker, of the specification |
| Download.CheckOut | protocols/git/git.go:617-633 | the tracked files are replaced by the commit's exactly when every object is there, and nothing changes otherwise |
| Download.Prepare | protocols/git/git.go:617-668 | checkout, submodules and the check for the subdirectory, as the specification |
| Download.Full | protocols/git/git.go:590-668 | the full stage leaves the state and error of the specification |
| Download.CloneThenPrepare | protocols/git/git.go:548-669 | the three stages with a reset between them, as the specification |
| Download.OneCandidate | protocols/git/git.go:468-536 | the loop over the credential chain, as the specification |
| Download.DownloadAll | protocols/git/git.go:328-379 | the loop over URLs and the archive fallback, as the specification; from an empty directory every file left on success has the stamp returned |
| Credentials.MatchHTTPSCredentials | settings/settings.go:253-309 | exactly the matching credentials, longest path first, in configuration order among equals |
| Credentials.SortStable | settings/settings.go:298-302 | a stable sort by descending path length that loses and adds nothing |
| Credentials.RankingUnique | settings/settings.go:244-309 | those properties determine the list |
| Credentials.HeadIsEarliestLongest | settings/settings.go:236-242 | the single answer is the earliest configured of the longest matches |
| Credentials.ScopesNest | settings/settings.go:314-327 | of two path scopes matching one URL, one covers the other up to a separator and ASCII case |
| Credentials.MatchesBySegments | settings/settings.go:269-296 | a credential applies exactly when host, account if named, and the segments of its path agree up to case, however a last slash or ".git" is written |
| Credentials.SpecificFirst | settings/settings.go:244-309 | of two that apply the one with the deeper scope goes first, of equally deep ones the one configured earlier |
| Credentials.MatchSSHKeys | settings/settings.go:355-367 | the keys for the host in configuration order, then the defaults |
| Credentials.MatchSSHKey | settings/settings.go:332-347 | the first of those keys, or none |
| Credentials.KeysInPlace | settings/settings.go:355-371 | wherever it is configured, a key for the host is among the host's in its place and one without host among the defaults |
| Credentials.ChainOffers | protocols/git/git.go:885-962 | a secret in the URL is offered alone; otherwise exactly the ranking, then what the dynamic source has, what the system helper has where it may be asked, and the bare username |
| Netrc.CollectTokens | internal/netrc/netrc.go:81-103 | the lines' fields in order, without macdef lines from the word on and without macdef bodies |
| Netrc.MacdefsContributeNothing | internal/netrc/netrc.go:81-103 | files alike outside macdefs give the same tokens |
| Netrc.Parse | internal/netrc/netrc.go:105-138 | the loop that fills machines through an alias returns the first entry of the grammar that names the host, else the first default, with the last login and password of that entry |
| Netrc.EntriesConcat | internal/netrc/netrc.go:105-133 | the entries of a complete file followed by another are the entries of both |
| Netrc.LaterEntriesChangeNothing | internal/netrc/netrc.go:111-116 | what follows the host's entry, from the next entry on, never changes it |
| Netrc.ChosenMeans | internal/netrc/netrc.go:75-139 | the first entry naming the host is chosen, wherever a default stands; without one the first default; without either none |
| Netrc.ReadBack | internal/netrc/netrc.go:75-139 | entries written one to a line are read back as they were: names, logins, passwords, defaults, in order |
| Netrc.NoiseIgnored | internal/netrc/netrc.go:98-139 | an account with its value, and any word that is no keyword, change nothing wherever they stand between entries and attributes |
| Netrc.MacdefEnds | internal/netrc/netrc.go:82-98 | a macdef ends with the blank line behind its body, and what stands before and after is read |
| LookupCache.OneFlightPerHost | ssrf/lookupcache.go:56-100 | in every interleaving the in-flight table holds, per host, exactly the run started and not yet published, and at most 1024 entries are cached |
| LookupCache.StepExtends | ssrf/lookupcache.go:81-100 | a result is written once: no step changes one that is there |
| LookupCache.AnswersAreLookups | ssrf/lookupcache.go:56-79 | every answer was returned by a completed lookup of that host; a hit is strictly before its completion plus 30s, or 5s for other failures |
| LookupCache.CachedExactly | ssrf/lookupcache.go:56-98 | once a lookup has published and until another for its host does, an Enter gets its answer without a new lookup exactly when the cache was never full since and less than 30 s (5 s for failures other than "no such host") have passed |
| LookupCache.PublishingStores | ssrf/lookupcache.go:92-98 | publishing stores the result, and drops the other hosts' only when 1024 are held |
| LookupCache.FewPublications | ssrf/lookupcache.go:92-98 | fewer publications than there is room for never fill the cache |
| LookupCache.EntryStays | ssrf/lookupcache.go:92-98 | an entry stays until its host is published again or the cache is full |
| LookupCache.WaitersGetTheirCall | ssrf/lookupcache.go:73-78 | a caller that waits is answered by the call it waits for, or gives up |
| LookupCache.RunCloses | ssrf/lookupcache.go:81-100 | each step of a run brings its channel one closer to closing, and nothing else moves it |
| LookupCache.NoWaiterStranded | ssrf/lookupcache.go:71-78 | a waiting caller's call is closed and can be received, or its run can step, and after at most three steps it is closed |
| LookupCache.Cache.Lookup | ssrf/lookupcache.go:56-71 | the critical section of a caller is the machine's step, and returns the cached answer or the call to wait for |
| LookupCache.Cache.Receive | ssrf/lookupcache.go:73-78 | a waiter gets the result of the call it waited for |
| LookupCache.Cache.SetResult | ssrf/lookupcache.go:81-91 | the result and its expiry are set by the machine's step |
| LookupCache.Cache.PublishResult | ssrf/lookupcache.go:92-99 | the run's critical section is the machine's step, clearing a full cache |
| LookupCache.Cache.CloseDone | ssrf/lookupcache.go:82-84 | closing the channel is the machine's step |
| Addresses.EncodeThenEmbedded | ssrf/proxied.go:192-218 | encoding an IPv4 address as NAT64, 6to4, Teredo or IPv4-compatible and decoding gives it back, Teredo's obfuscated client included |
| Addresses.EmbeddedIsEncoded | ssrf/proxied.go:192-218 | an address that carries anything is one of the four encodings of what is read from it |
| Addresses.EncodingsDisjoint | ssrf/proxied.go:207-216 | no address is two encodings, or one encoding of two contents |
| Ssrf.New | ssrf/ssrf.go:68-91 | each allow entry lands in the list it belongs to and nowhere else; the default level is Internal |
| Ssrf.NewIsParsed | ssrf/ssrf.go:68-91 | the addresses and ranges a new guard holds are whole, as the parsers return them |
| Ssrf.InternalRanges | ssrf/ssrf.go:153-164 | Internal blocks exactly the documented IPv4 and IPv6 ranges, octet by octet |
| Ssrf.LoopbackRanges | ssrf/ssrf.go:151-152 | the level Loopback is 127.0.0.0/8, ::1 and the unspecified addresses, as octet ranges |
| Ssrf.LevelsMean | ssrf/ssrf.go:137-168 | Off blocks nothing, Custom what the caller's predicate says of the plain form, every other level at least nil; what is allowed is not blocked |
| Ssrf.AllowedExactly | ssrf/ssrf.go:68-123 | a host or an address is allowed exactly when an entry, trimmed, names it up to case, is it in any form, or is a range holding it |
| Ssrf.EntriesWork | ssrf/ssrf.go:94-123 | what an entry allows passes both checks |
| Ssrf.RangeByPrefix | ssrf/ssrf.go:111-123 | a range is the addresses that share its whole bytes and the leading bits of the next |
| Ssrf.ProxiedExactly | ssrf/proxied.go:167-218 | the proxied check refuses of an IPv6 address that is not allowed exactly what the dial check does, 64:ff9b:1::/48 at the level Internal, and what carries a blocked IPv4 address in one of the four encodings |
| Ssrf.CheckHost | ssrf/ssrf.go:194-233 | passes exactly a disabled guard, an allowed name, an unblocked literal, or an answer with an address that may be dialed or none at all; otherwise says which address or failure |
| Ssrf.CheckProxiedASCII | ssrf/proxied.go:134-163 | passes exactly when the name is allowed, the literal is not blocked, or no address of the answer is blocked, with the two kinds of failed lookup told apart |
| Ssrf.AsciiForms | ssrf/proxied.go:75-102 | the spellings without trailing dot, refused exactly when a conversion fails or a label is empty |
| Ssrf.EmptyLabelsByDots | ssrf/proxied.go:96-98 | the three string tests amount to having an empty label |
| Ssrf.ConversionsDecide | ssrf/proxied.go:75-113 | a host outside ASCII passes the proxied check exactly when both its conversions exist and pass, each without its last dot |
| Ssrf.CheckProxiedHost | ssrf/proxied.go:51-66 | passes exactly when every spelling passes |
| Ssrf.LookupDecides | ssrf/ssrf.go:194-230 | a host not on the allow list: an address is judged as it stands, a name that is not all numerals by its lookup, where the direct check needs one address that may be dialed, or none at all, and the proxied check every address, letting unknown names through |
| Ssrf.ProxiedBlocksMore | ssrf/proxied.go:167-180 | every address the dial check blocks the proxied check blocks |
| Ssrf.CarriedIsJudged | ssrf/proxied.go:174-178 | an address is blocked for anything blocked that it carries, unless it is itself allowed |
| Ssrf.OnlyCarriedIsAdded | ssrf/proxied.go:167-186 | beyond the dial check only such addresses and the local NAT64 prefix are blocked |
| Ssrf.MappedAgrees | ssrf/ssrf.go:144-149 | an IPv4 address and its mapped form get the same verdict from both checks |
| Ssrf.LevelsNest | ssrf/ssrf.go:151-164 | what Loopback blocks Internal blocks |
| Ssrf.MoreEntriesAllowMore | ssrf/ssrf.go:68-91 | guards built from more allow entries, in any order, allow at least as much |
| Ssrf.AllowingNeverBlocks | ssrf/ssrf.go:94-123 | adding allow entries never makes either check refuse a host it passed |
| Ssrf.AllowingNeverBlocksAddress | ssrf/ssrf.go:111-149 | nor block an address it did not |
| Ssrf.ProxiedImpliesDirect | ssrf/proxied.go:134-163 | for a canonical ASCII host that passes the proxied check, the direct check passes on the same answer exactly when no lookup is needed or it succeeded |
| Ssrf.RewrittenSuffices | ssrf/proxied.go:91-102 | for an ASCII host with a trailing dot, passing the proxied check means passing the direct one on every successful lookup exactly when the dotted name is allowed too, the undotted one does not settle it, or nothing is blocked |
| Ssrf.TrailingDotDiffers | ssrf/proxied.go:91-95 | an instance where it does not |
| Ssrf.NumericLiteralsRefused | ssrf/ssrf.go:240-273 | one to four decimal, octal or hexadecimal numerals that do not parse as an address are refused by both checks whatever a lookup says |
| Urls.SubdirIsNames | protocols/git/git.go:142-147 | the resolved subdirectory has no empty, "." or ".." segment |
| Urls.ResolveSubdirIdempotent | protocols/git/git.go:142-147 | resolving it again changes nothing |
| Urls.AncestorsOfSubdir | protocols/git/sparse.go:336-346 | the ancestors of a resolved subdirectory are exactly its proper prefixes |
| Urls.SpellingsAgree | protocols/git/git.go:139-147 | "//sub" and "?subdir=sub" name the same directory of the same repository |
| Urls.FirstDoubleSlash | protocols/git/git.go:299-304 | the split is at the first "//", the one behind the repository |
| Urls.SshForm | protocols/git/git.go:1273-1299 | the SSH form keeps host and path and ends in exactly one ".git"; no host or no repository, no form |
| Urls.AzureForm | protocols/git/git.go:1273-1299 | for Azure DevOps it is "v3" with organisation, project and repository on the SSH host, for paths of that shape alone |
| Urls.HttpsForm | protocols/git/git.go:1301-1344 | other schemes are left alone, and an SSH remote elsewhere keeps host and path |
| Urls.PlainRoundTrip | protocols/git/git.go:1266-1334 | to SSH and back restores an HTTPS remote exactly when its path ends in ".git" and Azure DevOps's rewriting does not apply |
| Urls.AzureRoundTrip | protocols/git/git.go:1280-1287 | for Azure DevOps exactly when the path has the four segments org/project/_git/repo |
| Urls.AzureSshRoundTrip | protocols/git/git.go:1346-1360 | from Azure DevOps's SSH form to HTTPS and back restores it |
| Urls.ScpAgrees | protocols/git/git.go:1301-1334 | the SCP and ssh:// spellings lead to the same HTTPS remote |
| LocalFiles.ResolvePath | protocols/file/file.go:127-150 | the walk up terminates with the recursive specification's path |
| LocalFiles.DeepestAncestor | protocols/file/file.go:135-149 | which is the deepest ancestor that resolves, followed by the remaining names |
| LocalFiles.NoAncestor | protocols/file/file.go:140-142 | and the path itself when none does |
| LocalFiles.ResolvedIsFixed | protocols/file/file.go:123-150 | resolving a resolved path changes nothing, also where it does not exist yet |
| LocalFiles.WithinIsContainment | protocols/file/file.go:116-118 | the string test is containment of segments exactly when the allowed directory is not "/", or both are |
| LocalFiles.CheckAllowed | protocols/file/file.go:101-121 | allowed exactly when there is no restriction or some allowed directory that resolves covers the path |
| LocalFiles.CoversByNames | protocols/file/file.go:101-123 | an allowed directory covers what lies in it or is it once both are resolved, the root itself alone, and one without an absolute path nothing |

## Left out

- go-git, HTTP, SSH, DNS, TLS, the operating system: replaced by the remote's replies, the resolver's answers and the destination. Assumed of go-git: a tree walk that meets a missing subtree reports an error rather than the end, and the error for too deep a tree never arises; a checkout writes every file entry, the legacy group-writable mode included; a clone that is not bare checks out HEAD; a clone of everything brings what lies within its depth of the tips of branches and tags, beyond HEAD, and no clone brings more than it asks for; a clone that asks for no reference where HEAD does not resolve is answered with the same sentinel as a missing one; a pack holds no commit outside the history of what was asked for, and an unlimited request for the commit graph brings all of that.
- The `.git` directory, worktree index and submodule contents: only files are modelled; initialising them succeeds or fails, and only where the commit lists one can the failure be what another repository said.
- A server that serves any reachable commit is assumed never to call a commit missing that something it advertises leads to; about other commits it holds it may say so.
- One wire failure wraps at most one of the sentinels; error texts are left out. Of the two sentinels of a context, a failure is assumed to carry one only when the caller's context is done; a dial that times out on its own also satisfies `errors.Is` for the deadline, and then counts as definitive in the code.
- Scheme candidates (`cloneCandidates`), the connection probe and the guard's pre-check: a list of candidates, each with the outcome of its checks.
- Credential helpers, SSH agents, dynamic credential functions: sources that offer, decline or break when resolved. The order of HTTPS sources is modelled, the resolution of an SSH identity is not.
- `fetchArchive` up to the tarball: the platform's answer is a parameter.
- Tar, gzip and zip decoding: an archive is a list of entries with name, kind and bytes. Symlink entries of a tarball, which are written as plain files, are outside `Archive.ArchiveIsCone`.
- Fallback.PinnedCommitIsNeverLost: with a subdirectory it assumes that trees arrive whole, because the sparse path has no completeness check for them; so does RefResolution.NamedReference. Both assume that wanted submodules can be initialised; FirstSpelling.FirstSpellingExact does not. The tree is assumed to have no file of the legacy mode, whose blob a partial pack may lack unnoticed, and a subdirectory asked for to have a file below it, because a full checkout makes no directory without one.
- Archive.ArchiveIsCone: names containing a backslash next to ".." are refused by the ".." test and are outside it.
- I/O errors other than those named, file permissions, Windows separators, Unicode case folding and Unicode white space.
- Credentials.SortStable: sorts a sequence by insertion; the library's algorithm and the update in place are not modelled.
- Credentials.MatchSSHKey: a configured key that is nil is outside it.
- Refs.ResolveCommitHash: the order of the commit log is left open; every commit in the store is visited.
- `lookupCache.reset`, which drops calls in flight, and a panic inside a lookup, which ends the process.
- LookupCache.Cache.Lookup: contexts and the mutex are not modelled; each critical section is one step, and giving up is a step of the machine.
- `url.Parse`, IDNA, `net.ParseIP`, `net.ParseCIDR`, `filepath.EvalSymlinks`: parameters with the properties named where they are used. Remotes with ports, queries or escapes are outside the round trips.
- LocalFiles.ResolvedIsFixed: assumes that symlinks do not change and that what lies below a link resolves as what lies below its target.
- `transportOptions`, environment proxies, dialing (`DialContext`, `Control`): what they mean depends on code outside this repository.
- The S3, GCS, OCI, HTTP and Mercurial protocols, the command line and the single-file decompressors: wrappers with easy claims.
