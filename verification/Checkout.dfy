/**
 * From stored objects to files on disk: the sparse path's three steps (protocols/git/sparse.go),
 * the completeness check (protocols/git/pinned.go), and the full checkout both stand in for.
 */
module Checkout {
  import opened Options
  import opened Strings
  import opened Paths
  import opened SafePath
  import opened GitObjects
  import opened Cone

  /** A file as written, stamped with the attempt that wrote it. */
  datatype OnDisk = OnDisk(mode: Mode, content: Bytes, stamp: nat)

  type Files = map<string, OnDisk>

  datatype Store = Store(commits: map<Hash, Commit>, trees: set<Hash>, blobs: map<Hash, Bytes>, head: Option<Hash>)

  const NO_OBJECTS := Store(map[], {}, map[], None)

  class Repository {
    var store: Store

    constructor (store: Store)
      ensures this.store == store
    {
      this.store := store;
    }
  }

  /** The destination directory, keyed by path relative to its root. */
  class Destination {
    const root: string
    var files: Files

    constructor (root: string)
      ensures this.root == root && files == map[]
    {
      this.root := root;
      files := map[];
    }

    /** resetDir */
    method Reset()
      modifies this
      ensures files == map[]
    {
      files := map[];
    }
  }

  // sparseEntries

  method SparseEntries(repo: Repository, commit: Hash, subdir: string) returns (sel: Option<Selection>)
    ensures sel == Select(repo.store.commits, repo.store.trees, commit, subdir)
  {
    var commits, trees := repo.store.commits, repo.store.trees;
    if commit !in commits || commits[commit].tree.hash !in trees {
      return None;
    }
    var root := commits[commit].tree;
    var dirs := AncestorDirs(subdir);
    var along := EntriesAlong(trees, root, dirs);
    if along.None? || subdir == "" {
      return along;
    }
    var sub := TreeAtPath(trees, root, subdir);
    if sub.None? {
      return None;
    }
    var walk := Walk(trees, sub.value.entries);
    var s := AddEach(along.value, subdir, walk.rows);
    sel := if walk.complete then Some(s) else None;
  }

  method EntriesAlong(trees: set<Hash>, root: Tree, dirs: seq<string>) returns (sel: Option<Selection>)
    ensures sel == SelectDirs(trees, root, dirs)
  {
    var s := Selection([], []);
    for i := 0 to |dirs|
      invariant SelectDirs(trees, root, dirs[..i]) == Some(s)
    {
      assert dirs[..i + 1][..i] == dirs[..i];
      var tree := TreeAtPath(trees, root, dirs[i]);
      if tree.None? {
        SelectDirsStops(trees, root, dirs, i + 1);
        return None;
      }
      s := AddEach(s, dirs[i], Direct(tree.value.entries));
    }
    assert dirs[..|dirs|] == dirs;
    return Some(s);
  }

  method AddEach(sel: Selection, dir: string, rows: seq<Row>) returns (s: Selection)
    ensures s == AddRows(sel, dir, rows)
  {
    s := sel;
    for i := 0 to |rows|
      invariant s == AddRows(sel, dir, rows[..i])
    {
      assert rows[..i + 1][..i] == rows[..i];
      s := s.Add(PathJoin(dir, Join(rows[i].path, '/')), rows[i].item);
    }
    assert rows[..|rows|] == rows;
  }

  lemma {:induction false} SelectDirsStops(trees: set<Hash>, root: Tree, dirs: seq<string>, n: nat)
    requires n <= |dirs| && SelectDirs(trees, root, dirs[..n]).None?
    ensures SelectDirs(trees, root, dirs).None?
    decreases |dirs| - n
  {
    if n < |dirs| {
      assert dirs[..n + 1][..n] == dirs[..n];
      SelectDirsStops(trees, root, dirs, n + 1);
    } else {
      assert dirs[..n] == dirs;
    }
  }

  // fetchBlobs

  ghost predicate NoDuplicates<T>(s: seq<T>) {
    forall i, j :: 0 <= i < j < |s| ==> s[i] != s[j]
  }

  function SetOf<T>(s: seq<T>): set<T> {
    set x | x in s
  }

  function BlobsOf(files: seq<SparseEntry>): set<Hash> {
    set f | f in files :: f.blob
  }

  /** The blobs to ask for: each selected blob the store lacks, once. */
  method Wants(repo: Repository, files: seq<SparseEntry>) returns (wants: seq<Hash>)
    ensures NoDuplicates(wants)
    ensures SetOf(wants) == BlobsOf(files) - repo.store.blobs.Keys
  {
    wants := [];
    var seen: set<Hash> := {};
    for i := 0 to |files|
      invariant seen == BlobsOf(files[..i])
      invariant NoDuplicates(wants)
      invariant SetOf(wants) == seen - repo.store.blobs.Keys
    {
      var e := files[i];
      assert files[..i + 1] == files[..i] + [e];
      assert BlobsOf(files[..i + 1]) == BlobsOf(files[..i]) + {e.blob};
      if e.blob !in seen {
        assert e.blob !in SetOf(wants);
        seen := seen + {e.blob};
        if e.blob !in repo.store.blobs {
          assert SetOf(wants + [e.blob]) == SetOf(wants) + {e.blob};
          wants := wants + [e.blob];
        }
      }
    }
    assert files[..|files|] == files;
  }

  // materialise

  datatype Written = Written | Undelivered | Escaped
  datatype Writing = Writing(files: Files, status: Written)

  /** Where securePath puts a path, relative to the destination. */
  function DestKey(root: string, rel: string): Option<string> {
    match SafeJoin(root, rel)
    case Escapes => None
    case Inside(p) => Some(if |p| > |Clean(root)| then p[|Clean(root)| + 1..] else "")
  }

  function WriteOne(files: Files, root: string, blobs: map<Hash, Bytes>, e: SparseEntry, stamp: nat): Writing {
    var key := DestKey(root, e.path);
    if key.None? then Writing(files, Escaped)
    else if e.blob !in blobs then Writing(files, Undelivered)
    else Writing(files[key.value := OnDisk(e.mode, blobs[e.blob], stamp)], Written.Written)
  }

  /** The files after writing entries in order, stopping at the first that cannot be written. */
  function WriteAll(
    files: Files, root: string, blobs: map<Hash, Bytes>, entries: seq<SparseEntry>, stamp: nat): Writing {
    if entries == [] then Writing(files, Written.Written)
    else
      var before := WriteAll(files, root, blobs, entries[..|entries| - 1], stamp);
      if before.status != Written.Written then before
      else WriteOne(before.files, root, blobs, entries[|entries| - 1], stamp)
  }

  method Materialise(
    repo: Repository, entries: seq<SparseEntry>, dest: Destination, stamp: nat) returns (status: Written)
    modifies dest
    ensures Writing(dest.files, status) == WriteAll(old(dest.files), dest.root, old(repo.store.blobs), entries, stamp)
  {
    ghost var before, blobs := dest.files, repo.store.blobs;
    for i := 0 to |entries|
      invariant Writing(dest.files, Written.Written) == WriteAll(before, dest.root, blobs, entries[..i], stamp)
    {
      var e := entries[i];
      assert entries[..i + 1][..i] == entries[..i];
      var key := DestKey(dest.root, e.path);
      if key.None? {
        WriteAllStops(before, dest.root, blobs, entries, stamp, i + 1);
        return Escaped;
      }
      if e.blob !in repo.store.blobs {
        WriteAllStops(before, dest.root, blobs, entries, stamp, i + 1);
        return Undelivered;
      }
      dest.files := dest.files[key.value := OnDisk(e.mode, repo.store.blobs[e.blob], stamp)];
    }
    assert entries[..|entries|] == entries;
    return Written.Written;
  }

  lemma {:induction false} WriteAllStops(
    files: Files, root: string, blobs: map<Hash, Bytes>, entries: seq<SparseEntry>, stamp: nat, n: nat)
    requires n <= |entries| && WriteAll(files, root, blobs, entries[..n], stamp).status != Written.Written
    ensures WriteAll(files, root, blobs, entries, stamp) == WriteAll(files, root, blobs, entries[..n], stamp)
    decreases |entries| - n
  {
    if n < |entries| {
      assert entries[..n + 1][..n] == entries[..n];
      WriteAllStops(files, root, blobs, entries, stamp, n + 1);
    } else {
      assert entries[..n] == entries;
    }
  }

  // The full checkout, and what the sparse path leaves in its place.

  /** Every file of a tree at its path. */
  function TreeFiles(es: seq<Entry>, blobs: map<Hash, Bytes>, stamp: nat): Files {
    map k | k in FileKeys(es) && FileAt(es, k).Some? && FileAt(es, k).value.blob in blobs ::
      OnDisk(FileAt(es, k).value.mode, blobs[FileAt(es, k).value.blob], stamp)
  }

  function Restrict(files: Files, segs: seq<string>): Files {
    map k | k in files && InCone(Split(k, '/'), segs) && files[k].mode != Legacy :: files[k]
  }

  ghost predicate BlobsPresent(blobs: map<Hash, Bytes>, es: seq<Entry>) {
    forall r :: r in Listing(es) && r.item.File? ==> r.item.blob in blobs
  }

  /** Any store that holds a tree's blobs gives the same files. */
  lemma SameFiles(es: seq<Entry>, some: map<Hash, Bytes>, all: map<Hash, Bytes>, stamp: nat)
    requires BlobsPresent(some, es) && forall h :: h in some ==> h in all && some[h] == all[h]
    requires Wf(es)
    ensures TreeFiles(es, some, stamp) == TreeFiles(es, all, stamp)
  {
    forall k | k in FileKeys(es) && FileAt(es, k).Some? ensures FileAt(es, k).value.blob in some {
      FileRow(es, k);
    }
  }

  /** A checkout replaces the tracked files by the tree's; it needs every object the tree names. */
  ghost function FullCheckout(files: Files, tracked: set<string>, store: Store, tree: Tree, stamp: nat): Option<Files> {
    if tree.hash in store.trees && TreesPresent(store.trees, tree.entries) && BlobsPresent(store.blobs, tree.entries)
    then Some((files - tracked) + TreeFiles(tree.entries, store.blobs, stamp))
    else None
  }

  ghost predicate Plain(entries: seq<SparseEntry>) {
    DistinctPaths(entries) && forall e :: e in entries ==> Names(Split(e.path, '/')) && e.path != ""
  }

  function PathsOf(entries: seq<SparseEntry>): set<string> {
    set e | e in entries :: e.path
  }

  ghost predicate Holds(files: Files, blobs: map<Hash, Bytes>, entries: seq<SparseEntry>, stamp: nat) {
    && (forall e :: e in entries ==>
        e.path in files && e.blob in blobs && files[e.path] == OnDisk(e.mode, blobs[e.blob], stamp))
    && files.Keys == PathsOf(entries)
  }

  lemma PlainKey(root: string, path: string)
    requires Rooted(root) && CleanSegs(root) != [] && Names(Split(path, '/')) && path != ""
    ensures DestKey(root, path) == Some(path)
  {
    JoinSplit(path, '/');
    JoinNames(root, Split(path, '/'));
  }

  lemma EscapesAtSlash(root: string, path: string)
    requires Rooted(root) && CleanSegs(root) == [] && Names(Split(path, '/')) && path != ""
    ensures DestKey(root, path).None?
  {
    JoinAtSlash(root, path);
    ResolveNames([], Split(path, '/'), true);
  }

  lemma WritePlain(root: string, files: Files, blobs: map<Hash, Bytes>, e: SparseEntry, stamp: nat)
    requires Rooted(root) && CleanSegs(root) != [] && Names(Split(e.path, '/')) && e.path != "" && e.blob in blobs
    ensures WriteOne(files, root, blobs, e, stamp)
         == Writing(files[e.path := OnDisk(e.mode, blobs[e.blob], stamp)], Written.Written)
  {
    PlainKey(root, e.path);
  }

  lemma HoldsOneMore(files: Files, blobs: map<Hash, Bytes>, entries: seq<SparseEntry>, e: SparseEntry, stamp: nat)
    requires Holds(files, blobs, entries, stamp) && e.blob in blobs
    requires forall f :: f in entries ==> f.path != e.path
    ensures Holds(files[e.path := OnDisk(e.mode, blobs[e.blob], stamp)], blobs, entries + [e], stamp)
  {}

  ghost predicate WrittenOut(root: string, blobs: map<Hash, Bytes>, entries: seq<SparseEntry>, stamp: nat) {
    var w := WriteAll(map[], root, blobs, entries, stamp);
    w.status == Written.Written && Holds(w.files, blobs, entries, stamp)
  }

  lemma WriteLast(root: string, blobs: map<Hash, Bytes>, front: seq<SparseEntry>, e: SparseEntry, stamp: nat)
    requires Rooted(root) && CleanSegs(root) != [] && Names(Split(e.path, '/')) && e.path != "" && e.blob in blobs
    requires WrittenOut(root, blobs, front, stamp)
    requires forall f :: f in front ==> f.path != e.path
    ensures WrittenOut(root, blobs, front + [e], stamp)
  {
    assert (front + [e])[..|front|] == front;
    var before := WriteAll(map[], root, blobs, front, stamp).files;
    WritePlain(root, before, blobs, e, stamp);
    HoldsOneMore(before, blobs, front, e, stamp);
  }

  lemma {:induction false} WriteAllInOrder(
    root: string, blobs: map<Hash, Bytes>, entries: seq<SparseEntry>, n: nat, stamp: nat)
    requires Rooted(root) && CleanSegs(root) != [] && Plain(entries) && n <= |entries|
    requires BlobsOf(entries) <= blobs.Keys
    ensures WrittenOut(root, blobs, entries[..n], stamp)
    decreases n
  {
    if n == 0 {
      assert entries[..n] == [];
    } else {
      WriteAllInOrder(root, blobs, entries, n - 1, stamp);
      WriteNext(root, blobs, entries, n - 1, stamp);
    }
  }

  lemma WriteNext(root: string, blobs: map<Hash, Bytes>, entries: seq<SparseEntry>, n: nat, stamp: nat)
    requires Rooted(root) && CleanSegs(root) != [] && Plain(entries) && n < |entries| && BlobsOf(entries) <= blobs.Keys
    requires WrittenOut(root, blobs, entries[..n], stamp)
    ensures WrittenOut(root, blobs, entries[..n + 1], stamp)
  {
    PlainAt(entries, n);
    WriteLast(root, blobs, entries[..n], entries[n], stamp);
  }

  lemma PlainAt(entries: seq<SparseEntry>, i: nat)
    requires Plain(entries) && i < |entries|
    ensures entries[..i + 1] == entries[..i] + [entries[i]]
    ensures entries[i].blob in BlobsOf(entries)
    ensures Names(Split(entries[i].path, '/')) && entries[i].path != ""
    ensures forall f :: f in entries[..i] ==> f.path != entries[i].path
  {}

  lemma ExactConeNames(entries: seq<SparseEntry>, es: seq<Entry>, segs: seq<string>)
    requires Wf(es) && ExactCone(entries, es, segs)
    ensures Plain(entries) && forall e :: e in entries ==> e.path in FileKeys(es)
  {
    forall e | e in entries ensures Names(Split(e.path, '/')) && e.path != "" && e.path in FileKeys(es) {
      assert SparseEntry(e.path, e.mode, e.blob) in entries;
      FileKeysExact(es, e.path);
      var r :| r in Listing(es) && r.item.File? && Join(r.path, '/') == e.path;
      RowKey(es, r);
      ListingDistinct(es);
      JoinedNotRooted(r.path);
    }
  }

  /**
   * The sparse path refines a full checkout. Whatever the tree, the readable subdirectory and the
   * blobs already held: once the wanted blobs are there, selecting and writing into an empty
   * directory leaves exactly the full checkout's files that lie in the cone, with the same modes
   * and contents.
   */
  lemma SparseRefinesCheckout(
    root: string, store: Store, tree: Tree, segs: seq<string>, sel: Selection, all: map<Hash, Bytes>, stamp: nat)
    requires Rooted(root) && CleanSegs(root) != []
    requires |segs| > 0 && Names(segs) && Wf(tree.entries)
    requires SelectIn(store.trees, tree, Join(segs, '/')) == Some(sel)
    requires BlobsPresent(all, tree.entries)
    requires forall h :: h in store.blobs ==> h in all && store.blobs[h] == all[h]
    requires BlobsOf(sel.files) <= store.blobs.Keys
    ensures WriteAll(map[], root, store.blobs, sel.files, stamp)
         == Writing(Restrict(TreeFiles(tree.entries, all, stamp), segs), Written.Written)
  {
    SelectRows(store.trees, tree, segs);
    SelectIsCone(store.trees, tree, segs);
    ExactConeNames(sel.files, tree.entries, segs);
    WriteAllInOrder(root, store.blobs, sel.files, |sel.files|, stamp);
    assert sel.files[..|sel.files|] == sel.files;
    ConeFilesEqual(WriteAll(map[], root, store.blobs, sel.files, stamp).files, store, tree, segs, sel.files, all,
      stamp);
  }

  lemma ConeFilesEqual(
    got: Files, store: Store, tree: Tree, segs: seq<string>, entries: seq<SparseEntry>, all: map<Hash, Bytes>,
      stamp: nat)
    requires ExactCone(entries, tree.entries, segs) && forall e :: e in entries ==> e.path in FileKeys(tree.entries)
    requires Holds(got, store.blobs, entries, stamp)
    requires BlobsPresent(all, tree.entries) && Wf(tree.entries)
    requires forall h :: h in store.blobs ==> h in all && store.blobs[h] == all[h]
    ensures got == Restrict(TreeFiles(tree.entries, all, stamp), segs)
  {
    var full := TreeFiles(tree.entries, all, stamp);
    forall k | k in got ensures k in Restrict(full, segs) && got[k] == full[k] {
      var e :| e in entries && e.path == k;
      assert SparseEntry(k, e.mode, e.blob) in entries;
    }
    forall k | k in Restrict(full, segs) ensures k in got {
      var f := FileAt(tree.entries, k).value;
      assert SparseEntry(k, f.mode, f.blob) in entries;
    }
  }

  // commitComplete

  ghost predicate CompleteIn(store: Store, tree: Tree) {
    && tree.hash in store.trees && TreesPresent(store.trees, tree.entries)
    && forall r :: r in Listing(tree.entries) && Materialisable(r.item) ==> r.item.blob in store.blobs
  }

  predicate Delivered(blobs: map<Hash, Bytes>, item: Item) {
    Materialisable(item) ==> item.blob in blobs
  }

  /** commitComplete answers yes exactly when the commit, its trees and every blob it writes are there. */
  method CommitComplete(repo: Repository, hash: Hash) returns (complete: bool)
    ensures complete <==> hash in repo.store.commits && CompleteIn(repo.store, repo.store.commits[hash].tree)
  {
    if hash !in repo.store.commits || repo.store.commits[hash].tree.hash !in repo.store.trees {
      return false;
    }
    var blobs := repo.store.blobs;
    var tree := repo.store.commits[hash].tree;
    var walk := Walk(repo.store.trees, tree.entries);
    CompleteByWalk(repo.store, tree);
    for i := 0 to |walk.rows|
      invariant forall k :: 0 <= k < i ==> Delivered(blobs, walk.rows[k].item)
    {
      if !Delivered(blobs, walk.rows[i].item) {
        return false;
      }
    }
    return walk.complete;
  }

  lemma CompleteByWalk(store: Store, tree: Tree)
    requires tree.hash in store.trees
    ensures var walk := Walk(store.trees, tree.entries);
            CompleteIn(store, tree) <==>
            walk.complete && forall k :: 0 <= k < |walk.rows| ==> Delivered(store.blobs, walk.rows[k].item)
  {
    var walk := Walk(store.trees, tree.entries);
    WalkExact(store.trees, tree.entries);
    if walk.complete && forall k :: 0 <= k < |walk.rows| ==> Delivered(store.blobs, walk.rows[k].item) {
      forall r | r in Listing(tree.entries) && Materialisable(r.item) ensures r.item.blob in store.blobs {
        var k :| 0 <= k < |walk.rows| && walk.rows[k] == r;
      }
    }
  }

  /**
   * After a positive answer, checking the commit out meets no missing object exactly when the
   * legacy-mode blobs, which the check passes over, are there too.
   */
  lemma CompleteChecksOut(files: Files, tracked: set<string>, store: Store, tree: Tree, stamp: nat)
    requires CompleteIn(store, tree)
    ensures FullCheckout(files, tracked, store, tree, stamp).Some? <==>
            forall r :: r in Listing(tree.entries) && r.item.File? && r.item.mode == Legacy ==>
              r.item.blob in store.blobs
  {}

  /** The gap is real: a store that is complete by the check and cannot be checked out. */
  lemma LegacyBlobPassesCheck()
    ensures var tree := Tree("t", [Entry("a", File(Legacy, "b"))]);
            var store := Store(map["c" := Commit([], tree)], {"t"}, map[], Some("c"));
            CompleteIn(store, tree) && FullCheckout(map[], {}, store, tree, 0).None?
  {}
}
