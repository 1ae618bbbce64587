/**
 * Which entries a download of one subdirectory writes: the requested directory in full, and the
 * files sitting directly in each directory on the way to it (protocols/git/sparse.go).
 */
module Cone {
  import opened Options
  import opened Strings
  import opened Paths
  import opened GitObjects

  /** Cone mode, as a property of a path and of the requested directory. */
  predicate InCone(path: seq<string>, subdir: seq<string>) {
    || (|subdir| < |path| && subdir <= path)
    || (0 < |path| <= |subdir| && path[..|path| - 1] <= subdir)
  }

  datatype SparseEntry = SparseEntry(path: string, mode: Mode, blob: Hash)
  datatype Selection = Selection(files: seq<SparseEntry>, submodules: seq<string>) {
    /** sparseSelection.add */
    function Add(p: string, item: Item): Selection {
      if item.Submodule? then this.(submodules := submodules + [p])
      else if Materialisable(item) then this.(files := files + [SparseEntry(p, item.mode, item.blob)])
      else this
    }
  }

  /** The directories from the repository root down to, not including, subdir. */
  method AncestorDirs(subdir: string) returns (dirs: seq<string>)
    ensures dirs == Ancestors(subdir)
  {
    dirs := [""];
    if subdir == "" {
      return;
    }
    var parts := Split(subdir, '/');
    for i := 1 to |parts|
      invariant |dirs| == i
      invariant forall k :: 0 <= k < i ==> dirs[k] == Join(parts[..k], '/')
    {
      dirs := dirs + [Join(parts[..i], '/')];
    }
  }

  function Ancestors(subdir: string): seq<string> {
    if subdir == "" then [""]
    else
      var parts := Split(subdir, '/');
      seq(|parts|, i requires 0 <= i < |parts| => Join(parts[..i], '/'))
  }

  // The selection as a function of the stored objects.

  function AddRows(sel: Selection, dir: string, rows: seq<Row>): Selection {
    if rows == [] then sel
    else
      var before := AddRows(sel, dir, rows[..|rows| - 1]);
      var r := rows[|rows| - 1];
      before.Add(PathJoin(dir, Join(r.path, '/')), r.item)
  }

  function Direct(es: seq<Entry>): (rows: seq<Row>)
    ensures |rows| == |es| && forall i :: 0 <= i < |es| ==> rows[i] == Row([es[i].name], es[i].item)
  {
    seq(|es|, i requires 0 <= i < |es| => Row([es[i].name], es[i].item))
  }

  function TreeAtPath(trees: set<Hash>, root: Tree, dir: string): Option<Tree> {
    if dir == "" then Some(root) else TreeAt(trees, root, Split(dir, '/'))
  }

  /** The files sitting directly in each of dirs, or None once one of them cannot be read. */
  function SelectDirs(trees: set<Hash>, root: Tree, dirs: seq<string>): Option<Selection> {
    if dirs == [] then Some(Selection([], []))
    else
      var last := dirs[|dirs| - 1];
      var before := SelectDirs(trees, root, dirs[..|dirs| - 1]);
      var tree := TreeAtPath(trees, root, last);
      if before.None? || tree.None? then None
      else Some(AddRows(before.value, last, Direct(tree.value.entries)))
  }

  function SelectIn(trees: set<Hash>, root: Tree, subdir: string): Option<Selection> {
    var along := SelectDirs(trees, root, Ancestors(subdir));
    if along.None? || subdir == "" then along
    else SelectBelow(trees, along.value, subdir, TreeAtPath(trees, root, subdir))
  }

  function SelectBelow(trees: set<Hash>, along: Selection, subdir: string, sub: Option<Tree>): Option<Selection> {
    if sub.None? then None
    else
      var walk := Walk(trees, sub.value.entries);
      if walk.complete then Some(AddRows(along, subdir, walk.rows)) else None
  }

  /** sparseEntries as a function of the stored objects. */
  function Select(commits: map<Hash, Commit>, trees: set<Hash>, commit: Hash, subdir: string): Option<Selection> {
    if commit !in commits || commits[commit].tree.hash !in trees then None
    else SelectIn(trees, commits[commit].tree, subdir)
  }

  /** The rows the selection goes through, as one list. */
  ghost function DirectRows(root: Tree, trees: set<Hash>, segs: seq<string>, n: nat): seq<Row>
    requires n <= |segs|
  {
    if n == 0 then []
    else
      var tree := TreeAt(trees, root, segs[..n - 1]);
      DirectRows(root, trees, segs, n - 1)
        + if tree.Some? then Under(segs[..n - 1], Direct(tree.value.entries)) else []
  }

  /** The same rows read as a selection: files and submodules in order, at their full paths. */
  ghost function SelectionOf(rows: seq<Row>): Selection {
    AddRows(Selection([], []), "", rows)
  }

  lemma {:induction false} AddRowsConcat(sel: Selection, dir: string, a: seq<Row>, b: seq<Row>)
    ensures AddRows(sel, dir, a + b) == AddRows(AddRows(sel, dir, a), dir, b)
    decreases b
  {
    if b == [] {
      assert a + b == a;
    } else {
      assert (a + b)[..|a + b| - 1] == a + b[..|b| - 1];
      AddRowsConcat(sel, dir, a, b[..|b| - 1]);
    }
  }

  /** Adding rows below a directory is adding the same rows at their full paths. */
  lemma {:induction false} AddRowsUnder(sel: Selection, dir: seq<string>, rows: seq<Row>)
    requires Names(dir) && forall r :: r in rows ==> |r.path| > 0 && Names(r.path)
    ensures AddRows(sel, Join(dir, '/'), rows) == AddRows(sel, "", Under(dir, rows))
    decreases rows
  {
    if rows != [] {
      var n := |rows| - 1;
      var r := rows[n];
      AddRowsUnder(sel, dir, rows[..n]);
      assert Under(dir, rows)[..n] == Under(dir, rows[..n]);
      assert r in rows;
      PathJoinNames(dir, r.path);
      PathJoinNames([], dir + r.path);
      assert [] + (dir + r.path) == dir + r.path;
      assert Under(dir, rows)[n] == Row(dir + r.path, r.item);
    }
  }

  /** A selection holds exactly the materialisable rows it was built from, in order. */
  lemma {:induction false} SelectionExact(rows: seq<Row>)
    requires Proper(rows)
    ensures forall p, m, h :: SparseEntry(p, m, h) in SelectionOf(rows).files <==>
              exists r :: r in rows && Materialisable(r.item) && p == Join(r.path, '/') && File(m, h) == r.item
    decreases rows
  {
    if rows != [] {
      var n := |rows| - 1;
      assert rows == rows[..n] + [rows[n]];
      SelectionExact(rows[..n]);
      assert rows[n] in rows;
      PathJoinNames([], rows[n].path);
      assert [] + rows[n].path == rows[n].path;
      var before, after := SelectionOf(rows[..n]), SelectionOf(rows);
      assert after == before.Add(Join(rows[n].path, '/'), rows[n].item);
      forall p, m, h ensures SparseEntry(p, m, h) in after.files <==>
                             exists r :: r in rows && Materialisable(r.item) && p == Join(r.path, '/')
                               && File(m, h) == r.item {
        var e := SparseEntry(p, m, h);
        if e in after.files && e !in before.files {
          assert rows[n] in rows && Materialisable(rows[n].item);
        }
      }
    }
  }

  ghost predicate DistinctPaths(files: seq<SparseEntry>) {
    forall i, j :: 0 <= i < j < |files| ==> files[i].path != files[j].path
  }

  lemma {:induction false} SelectionDistinct(rows: seq<Row>)
    requires Proper(rows) && Distinct(rows)
    ensures DistinctPaths(SelectionOf(rows).files)
    decreases rows
  {
    if rows != [] {
      var n := |rows| - 1;
      assert rows == rows[..n] + [rows[n]];
      SelectionDistinct(rows[..n]);
      OneMoreDistinct(rows[..n], rows[n]);
    }
  }

  lemma OneMoreDistinct(rows: seq<Row>, r: Row)
    requires Proper(rows) && |r.path| > 0 && Names(r.path)
    requires forall s :: s in rows ==> s.path != r.path
    requires DistinctPaths(SelectionOf(rows).files)
    ensures DistinctPaths(SelectionOf(rows + [r]).files)
  {
    assert (rows + [r])[..|rows|] == rows;
    PathJoinNames([], r.path);
    assert [] + r.path == r.path;
    var before := SelectionOf(rows);
    forall i | 0 <= i < |before.files| ensures before.files[i].path != Join(r.path, '/') {
      SelectedFrom(rows, before.files[i], r.path);
    }
  }

  lemma SelectedFrom(rows: seq<Row>, f: SparseEntry, path: seq<string>)
    requires Proper(rows) && f in SelectionOf(rows).files && |path| > 0 && Names(path)
    requires forall s :: s in rows ==> s.path != path
    ensures f.path != Join(path, '/')
  {
    SelectionExact(rows);
    assert SparseEntry(f.path, f.mode, f.blob) in SelectionOf(rows).files;
    var s :| s in rows && f.path == Join(s.path, '/');
    if f.path == Join(path, '/') {
      JoinInjective(s.path, path, '/');
    }
  }

  // The rows of the cone.

  lemma AncestorsOf(segs: seq<string>)
    requires |segs| > 0 && Names(segs)
    ensures Join(segs, '/') != "" && Split(Join(segs, '/'), '/') == segs
    ensures |Ancestors(Join(segs, '/'))| == |segs|
    ensures forall i :: 0 <= i < |segs| ==> Ancestors(Join(segs, '/'))[i] == Join(segs[..i], '/')
  {
    JoinedNotRooted(segs);
    SplitJoin(segs, '/');
  }

  lemma TreeAtNames(trees: set<Hash>, root: Tree, segs: seq<string>)
    requires Names(segs)
    ensures TreeAtPath(trees, root, Join(segs, '/')) == TreeAt(trees, root, segs)
  {
    if segs != [] {
      JoinedNotRooted(segs);
      SplitJoin(segs, '/');
    }
  }

  lemma DirectProper(es: seq<Entry>)
    requires Wf(es)
    ensures Proper(Direct(es)) && Distinct(Direct(es))
  {}

  /** Reading the ancestors one by one selects what their rows, taken together, select. */
  lemma {:induction false} SelectDirsRows(trees: set<Hash>, root: Tree, segs: seq<string>, n: nat)
    requires |segs| > 0 && Names(segs) && Wf(root.entries)
    requires n <= |segs| == |Ancestors(Join(segs, '/'))|
    requires forall i :: 0 <= i < n ==> TreeAt(trees, root, segs[..i]).Some?
    ensures SelectDirs(trees, root, Ancestors(Join(segs, '/'))[..n]) ==
            Some(SelectionOf(DirectRows(root, trees, segs, n)))
    decreases n
  {
    AncestorsOf(segs);
    var dirs := Ancestors(Join(segs, '/'));
    if n > 0 {
      var dir := segs[..n - 1];
      SelectDirsRows(trees, root, segs, n - 1);
      assert dirs[..n][..n - 1] == dirs[..n - 1];
      TreeAtNames(trees, root, dir);
      var tree := TreeAt(trees, root, dir).value;
      TreeAtExact(trees, root, dir, ["x"]);
      DirectProper(tree.entries);
      var before := DirectRows(root, trees, segs, n - 1);
      AddRowsUnder(SelectionOf(before), dir, Direct(tree.entries));
      AddRowsConcat(Selection([], []), "", before, Under(dir, Direct(tree.entries)));
    }
  }

  ghost predicate InFirst(path: seq<string>, segs: seq<string>, n: nat) {
    0 < |path| <= n && path[..|path| - 1] <= segs
  }

  ghost predicate DirectExact(rows: seq<Row>, root: Tree, segs: seq<string>, n: nat) {
    && Distinct(rows) && Proper(rows)
    && forall path, item :: Row(path, item) in rows <==>
        InFirst(path, segs, n) && ItemAt(root.entries, path) == Some(item)
  }

  /** What sits directly in the first n directories on the way. */
  lemma {:induction false} DirectRowsExact(trees: set<Hash>, root: Tree, segs: seq<string>, n: nat)
    requires Names(segs) && Wf(root.entries) && n <= |segs|
    requires forall i :: 0 <= i < n ==> TreeAt(trees, root, segs[..i]).Some?
    ensures DirectExact(DirectRows(root, trees, segs, n), root, segs, n)
    decreases n
  {
    if n > 0 {
      DirectRowsExact(trees, root, segs, n - 1);
      OneMoreDirectory(trees, root, segs, n, DirectRows(root, trees, segs, n - 1));
    }
  }

  lemma OneMoreDirectory(trees: set<Hash>, root: Tree, segs: seq<string>, n: nat, before: seq<Row>)
    requires Names(segs) && Wf(root.entries) && 0 < n <= |segs|
    requires TreeAt(trees, root, segs[..n - 1]).Some?
    requires DirectExact(before, root, segs, n - 1)
    ensures DirectExact(before + Under(segs[..n - 1], Direct(TreeAt(trees, root, segs[..n - 1]).value.entries)), root,
            segs, n)
  {
    var dir := segs[..n - 1];
    var es := TreeAt(trees, root, dir).value.entries;
    var added := Under(dir, Direct(es));
    TreeAtExact(trees, root, dir, ["x"]);
    DirectProper(es);
    DistinctUnder(dir, Direct(es));
    ProperUnder(dir, Direct(es));
    forall path, item ensures Row(path, item) in added <==>
                              |path| == n && path[..n - 1] == dir && ItemAt(root.entries, path) == Some(item) {
      AddedRow(trees, root, dir, path, item);
    }
    forall r | r in before ensures |r.path| < n {
      assert Row(r.path, r.item) in before;
    }
    DistinctConcat(before, added);
    forall path, item
      ensures Row(path, item) in before + added <==> InFirst(path, segs, n) && ItemAt(root.entries, path) == Some(item)
    {
      InFirstSplit(path, segs, n);
    }
  }

  lemma InFirstSplit(path: seq<string>, segs: seq<string>, n: nat)
    requires 0 < n <= |segs|
    ensures InFirst(path, segs, n) <==> InFirst(path, segs, n - 1) || (|path| == n && path[..n - 1] == segs[..n - 1])
  {}

  lemma AddedRow(trees: set<Hash>, root: Tree, dir: seq<string>, path: seq<string>, item: Item)
    requires Wf(root.entries) && TreeAt(trees, root, dir).Some?
    ensures Row(path, item) in Under(dir, Direct(TreeAt(trees, root, dir).value.entries)) <==>
            |path| == |dir| + 1 && path[..|dir|] == dir && ItemAt(root.entries, path) == Some(item)
  {
    var es := TreeAt(trees, root, dir).value.entries;
    var rows := Under(dir, Direct(es));
    if Row(path, item) in rows {
      var i :| 0 <= i < |rows| && rows[i] == Row(path, item);
      assert es[i] == Entry(es[i].name, item);
      EntryRow(trees, root, dir, es[i].name, item);
    }
    if |path| == |dir| + 1 && path[..|dir|] == dir && ItemAt(root.entries, path) == Some(item) {
      assert path == dir + [path[|dir|]];
      EntryRow(trees, root, dir, path[|dir|], item);
      var i :| 0 <= i < |es| && es[i] == Entry(path[|dir|], item);
      assert rows[i] == Row(path, item);
    }
  }

  lemma EntryRow(trees: set<Hash>, root: Tree, dir: seq<string>, name: string, item: Item)
    requires Wf(root.entries) && TreeAt(trees, root, dir).Some?
    ensures Entry(name, item) in TreeAt(trees, root, dir).value.entries <==>
            ItemAt(root.entries, dir + [name]) == Some(item)
  {
    TreeAtExact(trees, root, dir, [name]);
    FindInWf(TreeAt(trees, root, dir).value.entries, name, item);
  }

  ghost function ConeRows(trees: set<Hash>, root: Tree, segs: seq<string>): seq<Row>
    requires TreeAt(trees, root, segs).Some?
  {
    DirectRows(root, trees, segs, |segs|) + Under(segs, Listing(TreeAt(trees, root, segs).value.entries))
  }

  /** The cone's rows are the entries of the whole tree that lie in the cone, each once. */
  lemma ConeRowsExact(trees: set<Hash>, root: Tree, segs: seq<string>)
    requires Names(segs) && Wf(root.entries)
    requires forall i :: 0 <= i <= |segs| ==> TreeAt(trees, root, segs[..i]).Some?
    requires TreeAt(trees, root, segs).Some?
    ensures forall path, item :: Row(path, item) in ConeRows(trees, root, segs) <==>
              InCone(path, segs) && ItemAt(root.entries, path) == Some(item)
    ensures Distinct(ConeRows(trees, root, segs)) && Proper(ConeRows(trees, root, segs))
  {
    var es := TreeAt(trees, root, segs).value.entries;
    var above, below := DirectRows(root, trees, segs, |segs|), Under(segs, Listing(es));
    DirectRowsExact(trees, root, segs, |segs|);
    TreeAtExact(trees, root, segs, ["x"]);
    ListingDistinct(es);
    DistinctUnder(segs, Listing(es));
    forall path, item ensures Row(path, item) in below <==>
                              |segs| < |path| && segs <= path && ItemAt(root.entries, path) == Some(item) {
      BelowRow(trees, root, segs, path, item);
    }
    forall r, s | r in above && s in below ensures r.path != s.path {
      assert Row(r.path, r.item) in above && Row(s.path, s.item) in below;
    }
    DistinctConcat(above, below);
    ProperUnder(segs, Listing(es));
  }

  lemma BelowRow(trees: set<Hash>, root: Tree, segs: seq<string>, path: seq<string>, item: Item)
    requires Wf(root.entries) && TreeAt(trees, root, segs).Some?
    ensures Row(path, item) in Under(segs, Listing(TreeAt(trees, root, segs).value.entries)) <==>
            |segs| < |path| && segs <= path && ItemAt(root.entries, path) == Some(item)
  {
    var below := Listing(TreeAt(trees, root, segs).value.entries);
    var rows := Under(segs, below);
    if Row(path, item) in rows {
      var i :| 0 <= i < |rows| && rows[i] == Row(path, item);
      assert Row(below[i].path, item) in below;
      ListedRow(trees, root, segs, below[i].path, item);
    }
    if |segs| < |path| && segs <= path && ItemAt(root.entries, path) == Some(item) {
      var rest := path[|segs|..];
      assert path == segs + rest;
      ListedRow(trees, root, segs, rest, item);
      var i :| 0 <= i < |below| && below[i] == Row(rest, item);
      assert rows[i] == Row(path, item);
    }
  }

  lemma ListedRow(trees: set<Hash>, root: Tree, segs: seq<string>, rest: seq<string>, item: Item)
    requires Wf(root.entries) && TreeAt(trees, root, segs).Some?
    ensures Row(rest, item) in Listing(TreeAt(trees, root, segs).value.entries) <==>
            rest != [] && ItemAt(root.entries, segs + rest) == Some(item)
  {
    var es := TreeAt(trees, root, segs).value.entries;
    TreeAtExact(trees, root, segs, if rest == [] then ["x"] else rest);
    ListingExact(es, rest, item);
  }

  /** Every directory on the way to a readable one is readable. */
  lemma {:induction false} TreeAtPrefix(trees: set<Hash>, root: Tree, segs: seq<string>, i: nat)
    requires TreeAt(trees, root, segs).Some? && i <= |segs|
    ensures TreeAt(trees, root, segs[..i]).Some?
    decreases segs
  {
    if segs != [] && i > 0 {
      assert segs[..i][1..] == segs[1..][..i - 1];
      TreeAtPrefix(trees, Find(root.entries, segs[0]).value.tree, segs[1..], i - 1);
    }
  }

  /** The requested directory can be read, with everything below it. */
  ghost predicate ReadableIn(trees: set<Hash>, root: Tree, segs: seq<string>) {
    && TreeAt(trees, root, segs).Some?
    && TreesPresent(trees, TreeAt(trees, root, segs).value.entries)
  }

  /** Selecting succeeds exactly when the directory can be read, and then goes through the cone's rows. */
  lemma SelectRows(trees: set<Hash>, root: Tree, segs: seq<string>)
    requires |segs| > 0 && Names(segs) && Wf(root.entries)
    ensures SelectIn(trees, root, Join(segs, '/')).Some? <==> ReadableIn(trees, root, segs)
    ensures ReadableIn(trees, root, segs) ==>
              SelectIn(trees, root, Join(segs, '/')) == Some(SelectionOf(ConeRows(trees, root, segs)))
  {
    var subdir := Join(segs, '/');
    assert subdir != "" by { JoinedNotRooted(segs); }
    TreeAtNames(trees, root, segs);
    var sub := TreeAt(trees, root, segs);
    if sub.None? {
      assert SelectIn(trees, root, subdir).None?;
    } else {
      AlongSegs(trees, root, segs);
      ThenBelow(trees, root, segs);
      WalkExact(trees, sub.value.entries);
    }
  }

  lemma AlongSegs(trees: set<Hash>, root: Tree, segs: seq<string>)
    requires |segs| > 0 && Names(segs) && Wf(root.entries) && TreeAt(trees, root, segs).Some?
    ensures SelectDirs(trees, root, Ancestors(Join(segs, '/'))) ==
            Some(SelectionOf(DirectRows(root, trees, segs, |segs|)))
  {
    AncestorsOf(segs);
    forall i | 0 <= i < |segs| ensures TreeAt(trees, root, segs[..i]).Some? {
      TreeAtPrefix(trees, root, segs, i);
    }
    SelectDirsRows(trees, root, segs, |segs|);
    var dirs := Ancestors(Join(segs, '/'));
    assert dirs[..|segs|] == dirs;
  }

  lemma ThenBelow(trees: set<Hash>, root: Tree, segs: seq<string>)
    requires |segs| > 0 && Names(segs) && Wf(root.entries) && TreeAt(trees, root, segs).Some?
    ensures var below := Listing(TreeAt(trees, root, segs).value.entries);
            AddRows(SelectionOf(DirectRows(root, trees, segs, |segs|)), Join(segs, '/'), below)
              == SelectionOf(ConeRows(trees, root, segs))
  {
    TreeAtExact(trees, root, segs, ["x"]);
    var below := Listing(TreeAt(trees, root, segs).value.entries);
    var above := DirectRows(root, trees, segs, |segs|);
    ListingDistinct(TreeAt(trees, root, segs).value.entries);
    AddRowsUnder(SelectionOf(above), segs, below);
    AddRowsConcat(Selection([], []), "", above, Under(segs, below));
  }

  /**
   * The selection is the cone: a file is selected, at its repository path and with its mode and
   * blob, exactly when the whole tree has it and it lies in the cone; and no path comes twice.
   */
  lemma SelectIsCone(trees: set<Hash>, root: Tree, segs: seq<string>)
    requires |segs| > 0 && Names(segs) && Wf(root.entries) && ReadableIn(trees, root, segs)
    ensures SelectIn(trees, root, Join(segs, '/')).Some?
    ensures ExactCone(SelectIn(trees, root, Join(segs, '/')).value.files, root.entries, segs)
  {
    SelectRows(trees, root, segs);
    forall i | 0 <= i <= |segs| ensures TreeAt(trees, root, segs[..i]).Some? {
      TreeAtPrefix(trees, root, segs, i);
    }
    ConeRowsExact(trees, root, segs);
    var rows := ConeRows(trees, root, segs);
    SelectionDistinct(rows);
    forall p, m, h ensures SparseEntry(p, m, h) in SelectionOf(rows).files <==>
                           m != Legacy && InCone(Split(p, '/'), segs) && FileAt(root.entries, p) == Some(File(m, h)) {
      ConeFile(rows, root, segs, p, m, h);
    }
  }

  /** And the submodules noted are those in the cone, each at its repository path. */
  lemma SubmodulesInCone(trees: set<Hash>, root: Tree, segs: seq<string>, p: string)
    requires |segs| > 0 && Names(segs) && Wf(root.entries) && ReadableIn(trees, root, segs)
    ensures SelectIn(trees, root, Join(segs, '/')).Some?
    ensures p in SelectIn(trees, root, Join(segs, '/')).value.submodules <==>
            InCone(Split(p, '/'), segs) && IsSubmodule(root.entries, Split(p, '/'))
  {
    SelectRows(trees, root, segs);
    forall i | 0 <= i <= |segs| ensures TreeAt(trees, root, segs[..i]).Some? {
      TreeAtPrefix(trees, root, segs, i);
    }
    ConeRowsExact(trees, root, segs);
    var rows := ConeRows(trees, root, segs);
    NotedExact(rows, p);
    if r :| r in rows && r.item.Submodule? && p == Join(r.path, '/') {
      assert Row(r.path, r.item) in rows;
      SplitJoin(r.path, '/');
    }
    if InCone(Split(p, '/'), segs) && IsSubmodule(root.entries, Split(p, '/')) {
      JoinSplit(p, '/');
      assert Row(Split(p, '/'), ItemAt(root.entries, Split(p, '/')).value) in rows;
    }
  }

  ghost predicate IsSubmodule(es: seq<Entry>, path: seq<string>) {
    ItemAt(es, path).Some? && ItemAt(es, path).value.Submodule?
  }

  lemma {:induction false} NotedExact(rows: seq<Row>, p: string)
    requires Proper(rows)
    ensures p in SelectionOf(rows).submodules <==>
            exists r :: r in rows && r.item.Submodule? && p == Join(r.path, '/')
    decreases rows
  {
    if rows != [] {
      var n := |rows| - 1;
      assert rows == rows[..n] + [rows[n]];
      NotedExact(rows[..n], p);
      assert rows[n] in rows;
      PathJoinNames([], rows[n].path);
      assert [] + rows[n].path == rows[n].path;
      assert SelectionOf(rows) == SelectionOf(rows[..n]).Add(Join(rows[n].path, '/'), rows[n].item);
    }
  }

  ghost predicate ExactCone(files: seq<SparseEntry>, es: seq<Entry>, segs: seq<string>) {
    && DistinctPaths(files)
    && forall p, m, h :: SparseEntry(p, m, h) in files <==>
         m != Legacy && InCone(Split(p, '/'), segs) && FileAt(es, p) == Some(File(m, h))
  }

  lemma ConeFile(rows: seq<Row>, root: Tree, segs: seq<string>, p: string, m: Mode, h: Hash)
    requires Proper(rows)
    requires forall path, item :: Row(path, item) in rows <==>
            InCone(path, segs) && ItemAt(root.entries, path) == Some(item)
    ensures SparseEntry(p, m, h) in SelectionOf(rows).files <==>
            m != Legacy && InCone(Split(p, '/'), segs) && FileAt(root.entries, p) == Some(File(m, h))
  {
    SelectionExact(rows);
    if SparseEntry(p, m, h) in SelectionOf(rows).files {
      var r :| r in rows && Materialisable(r.item) && p == Join(r.path, '/') && File(m, h) == r.item;
      SplitJoin(r.path, '/');
      assert Row(r.path, r.item) in rows;
    }
    if m != Legacy && InCone(Split(p, '/'), segs) && FileAt(root.entries, p) == Some(File(m, h)) {
      JoinSplit(p, '/');
      assert Row(Split(p, '/'), File(m, h)) in rows;
    }
  }
}
