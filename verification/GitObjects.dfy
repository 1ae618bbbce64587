/**
 * Commits, trees and blobs as a checkout sees them. A tree carries its children, so that it is
 * finite by construction; which of those objects a repository holds is separate data.
 */
module GitObjects {
  import opened Options
  import opened Strings
  import opened Paths

  type Hash = string
  type Bytes = string

  /** Legacy is the group-writable file mode git no longer writes. */
  datatype Mode = Regular | Executable | Symlink | Legacy

  datatype Tree = Tree(hash: Hash, entries: seq<Entry>)
  datatype Entry = Entry(name: string, item: Item)
  datatype Item = File(mode: Mode, blob: Hash) | Dir(tree: Tree) | Submodule(commit: Hash)
  datatype Commit = Commit(parents: seq<Hash>, tree: Tree)

  /** One line of a recursive tree listing. */
  datatype Row = Row(path: seq<string>, item: Item)

  predicate Materialisable(item: Item) {
    item.File? && item.mode != Legacy
  }

  /** What git itself guarantees of a tree: proper names, each used once, at every level. */
  ghost predicate Wf(es: seq<Entry>)
    decreases es
  {
    && (forall e :: e in es ==> Name(e.name))
    && (forall i, j :: 0 <= i < j < |es| ==> es[i].name != es[j].name)
    && (forall e :: e in es && e.item.Dir? ==> Wf(e.item.tree.entries))
  }

  function Under(dir: seq<string>, rows: seq<Row>): (r: seq<Row>)
    ensures |r| == |rows|
    ensures forall i :: 0 <= i < |r| ==> r[i] == Row(dir + rows[i].path, rows[i].item)
  {
    seq(|rows|, i requires 0 <= i < |rows| => Row(dir + rows[i].path, rows[i].item))
  }

  /** Every entry at or below es, parents before their children. */
  function Listing(es: seq<Entry>): seq<Row>
    decreases es
  {
    if es == [] then []
    else Rows(es[0]) + Listing(es[1..])
  }

  function Rows(e: Entry): seq<Row>
    decreases e
  {
    [Row([e.name], e.item)] + if e.item.Dir? then Under([e.name], Listing(e.item.tree.entries)) else []
  }

  /** The entry of that name in one tree; the last one, if a malformed tree repeats a name. */
  function Find(es: seq<Entry>, name: string): Option<Item> {
    if es == [] then None
    else if Find(es[1..], name).Some? then Find(es[1..], name)
    else if es[0].name == name then Some(es[0].item)
    else None
  }

  /** The entry at a path, found one name at a time. */
  function ItemAt(es: seq<Entry>, path: seq<string>): Option<Item>
    decreases path
  {
    if path == [] then None
    else
      var item := Find(es, path[0]);
      if |path| == 1 then item
      else if item.Some? && item.value.Dir? then ItemAt(item.value.tree.entries, path[1..])
      else None
  }

  lemma {:induction false} FindInWf(es: seq<Entry>, name: string, item: Item)
    requires Wf(es)
    ensures Find(es, name) == Some(item) <==> Entry(name, item) in es
  {
    if es != [] {
      WfTail(es);
      FindInWf(es[1..], name, item);
      assert es == [es[0]] + es[1..];
      if Find(es[1..], name).Some? {
        FindInWf(es[1..], name, Find(es[1..], name).value);
        var k :| 0 <= k < |es[1..]| && es[1..][k] == Entry(name, Find(es[1..], name).value);
        assert es[k + 1].name == name && es[0].name != es[k + 1].name;
      }
    }
  }

  lemma WfTail(es: seq<Entry>)
    requires Wf(es) && es != []
    ensures Wf(es[1..])
  {
    assert forall i :: 0 <= i < |es[1..]| ==> es[1..][i] == es[i + 1];
  }

  lemma WfDir(es: seq<Entry>, name: string, tree: Tree)
    requires Wf(es) && Find(es, name) == Some(Dir(tree))
    ensures Wf(tree.entries)
  {
    FindInWf(es, name, Dir(tree));
  }

  /** The listing holds exactly what looking paths up finds. */
  lemma {:induction false} ListingExact(es: seq<Entry>, path: seq<string>, item: Item)
    requires Wf(es)
    ensures Row(path, item) in Listing(es) <==> ItemAt(es, path) == Some(item)
    decreases es
  {
    if es != [] {
      WfTail(es);
      ListingExact(es[1..], path, item);
      RowsExact(es[0], path, item);
      if path != [] {
        if path[0] == es[0].name {
          FindInWf(es, es[0].name, es[0].item);
          HeadNotInTail(es, path, item);
        } else {
          assert Find(es, path[0]) == Find(es[1..], path[0]);
        }
      }
    }
  }

  lemma HeadNotInTail(es: seq<Entry>, path: seq<string>, item: Item)
    requires Wf(es) && es != [] && path != [] && path[0] == es[0].name
    ensures Find(es[1..], path[0]) == None
    ensures ItemAt(es[1..], path) == None
  {
    WfTail(es);
    if Find(es[1..], path[0]).Some? {
      FindInWf(es[1..], path[0], Find(es[1..], path[0]).value);
    }
  }

  lemma RowsExact(e: Entry, path: seq<string>, item: Item)
    requires Wf([e])
    ensures Row(path, item) in Rows(e) <==>
            || (path == [e.name] && item == e.item)
            || (|path| > 1 && path[0] == e.name && e.item.Dir? && ItemAt(e.item.tree.entries, path[1..]) == Some(item))
    decreases e, 0
  {
    assert e in [e];
    if e.item.Dir? {
      var below := Listing(e.item.tree.entries);
      if |path| > 0 {
        ListingExact(e.item.tree.entries, path[1..], item);
      }
      if Row(path, item) in Under([e.name], below) {
        var i :| 0 <= i < |below| && Under([e.name], below)[i] == Row(path, item);
        assert path[1..] == below[i].path && below[i] in below;
      }
      if |path| > 1 && path[0] == e.name && Row(path[1..], item) in below {
        var i :| 0 <= i < |below| && below[i] == Row(path[1..], item);
        assert Under([e.name], below)[i] == Row(path, item);
      }
    }
  }

  ghost predicate Distinct(rows: seq<Row>) {
    forall i, j :: 0 <= i < j < |rows| ==> rows[i].path != rows[j].path
  }

  ghost predicate Disjoint(a: seq<Row>, b: seq<Row>) {
    forall r, s :: r in a && s in b ==> r.path != s.path
  }

  lemma DistinctConcat(a: seq<Row>, b: seq<Row>)
    requires Distinct(a) && Distinct(b) && Disjoint(a, b)
    ensures Distinct(a + b)
  {
    forall i, j | 0 <= i < j < |a + b| ensures (a + b)[i].path != (a + b)[j].path {
      if i < |a| <= j {
        assert a[i] in a && b[j - |a|] in b;
      }
    }
  }

  lemma DistinctUnder(dir: seq<string>, rows: seq<Row>)
    requires Distinct(rows)
    ensures Distinct(Under(dir, rows))
  {
    forall i, j | 0 <= i < j < |rows| ensures Under(dir, rows)[i].path != Under(dir, rows)[j].path {
      assert (dir + rows[i].path)[|dir|..] == rows[i].path;
      assert (dir + rows[j].path)[|dir|..] == rows[j].path;
    }
  }

  ghost predicate Proper(rows: seq<Row>) {
    forall r :: r in rows ==> |r.path| > 0 && Names(r.path)
  }

  lemma ProperUnder(dir: seq<string>, rows: seq<Row>)
    requires Names(dir) && Proper(rows)
    ensures Proper(Under(dir, rows))
  {
    forall r | r in Under(dir, rows) ensures |r.path| > 0 && Names(r.path) {
      var i :| 0 <= i < |rows| && r == Under(dir, rows)[i];
      assert rows[i] in rows;
    }
  }

  /** No path is listed twice, and every listed path is made of ordinary names. */
  lemma {:induction false} ListingDistinct(es: seq<Entry>)
    requires Wf(es)
    ensures Distinct(Listing(es)) && Proper(Listing(es))
    decreases es
  {
    if es != [] {
      WfTail(es);
      ListingDistinct(es[1..]);
      assert es[0] in es;
      if es[0].item.Dir? {
        ListingDistinct(es[0].item.tree.entries);
      }
      RowsDistinct(es[0]);
      forall r, s | r in Rows(es[0]) && s in Listing(es[1..]) ensures r.path != s.path {
        HeadApart(es, r, s);
      }
      DistinctConcat(Rows(es[0]), Listing(es[1..]));
    }
  }

  lemma RowsDistinct(e: Entry)
    requires Name(e.name)
    requires e.item.Dir? ==> Distinct(Listing(e.item.tree.entries)) && Proper(Listing(e.item.tree.entries))
    ensures Distinct(Rows(e)) && Proper(Rows(e))
    ensures forall r :: r in Rows(e) ==> r.path[0] == e.name
  {
    if e.item.Dir? {
      var below := Listing(e.item.tree.entries);
      DistinctUnder([e.name], below);
      ProperUnder([e.name], below);
      forall r | r in Under([e.name], below) ensures |r.path| > 1 && r.path[0] == e.name {
        var i :| 0 <= i < |below| && r == Under([e.name], below)[i];
        assert below[i] in below;
      }
      DistinctConcat([Row([e.name], e.item)], Under([e.name], below));
    }
  }

  lemma HeadApart(es: seq<Entry>, r: Row, s: Row)
    requires Wf(es) && es != [] && Wf(es[1..])
    requires |r.path| > 0 && r.path[0] == es[0].name && |s.path| > 0 && s in Listing(es[1..])
    ensures r.path != s.path
  {
    ListingExact(es[1..], s.path, s.item);
    if s.path[0] == es[0].name {
      HeadNotInTail(es, s.path, s.item);
    }
  }

  /** The file at a slash-separated path. */
  function FileAt(es: seq<Entry>, key: string): Option<Item> {
    var item := ItemAt(es, Split(key, '/'));
    if item.Some? && item.value.File? then item else None
  }

  function FileKeys(es: seq<Entry>): set<string> {
    set r | r in Listing(es) && r.item.File? :: Join(r.path, '/')
  }

  lemma FileKeysExact(es: seq<Entry>, key: string)
    requires Wf(es)
    ensures key in FileKeys(es) <==> FileAt(es, key).Some?
  {
    if key in FileKeys(es) {
      var r :| r in Listing(es) && r.item.File? && Join(r.path, '/') == key;
      RowKey(es, r);
    }
    if FileAt(es, key).Some? {
      var path, item := Split(key, '/'), FileAt(es, key).value;
      ListingExact(es, path, item);
      JoinSplit(key, '/');
      assert Row(path, item) in Listing(es);
    }
  }

  lemma RowKey(es: seq<Entry>, r: Row)
    requires Wf(es) && r in Listing(es)
    ensures Split(Join(r.path, '/'), '/') == r.path && ItemAt(es, r.path) == Some(r.item)
  {
    ListingDistinct(es);
    SplitJoin(r.path, '/');
    ListingExact(es, r.path, r.item);
  }

  lemma FileRow(es: seq<Entry>, k: string)
    requires Wf(es) && FileAt(es, k).Some?
    ensures Row(Split(k, '/'), FileAt(es, k).value) in Listing(es)
  {
    ListingExact(es, Split(k, '/'), FileAt(es, k).value);
  }

  // Walking a tree in an object store.

  /** What a recursive walk yields before it ends, and whether it ended at the end. */
  datatype Walked = Walked(rows: seq<Row>, complete: bool)

  /** A walk reads each subtree before it yields it, and stops at the first that is missing. */
  function Walk(trees: set<Hash>, es: seq<Entry>): Walked
    decreases es
  {
    if es == [] then Walked([], true)
    else
      var e := es[0];
      var first := Row([e.name], e.item);
      if !e.item.Dir? then
        var rest := Walk(trees, es[1..]);
        Walked([first] + rest.rows, rest.complete)
      else if e.item.tree.hash !in trees then Walked([], false)
      else
        var below := Walk(trees, e.item.tree.entries);
        var sofar := [first] + Under([e.name], below.rows);
        if !below.complete then Walked(sofar, false)
        else
          var rest := Walk(trees, es[1..]);
          Walked(sofar + rest.rows, rest.complete)
  }

  ghost predicate TreesPresent(trees: set<Hash>, es: seq<Entry>) {
    forall r :: r in Listing(es) && r.item.Dir? ==> r.item.tree.hash in trees
  }

  lemma PresentConcat(trees: set<Hash>, e: Entry, rest: seq<Entry>)
    ensures TreesPresent(trees, [e] + rest) <==>
            && TreesPresent(trees, rest)
            && (e.item.Dir? ==> e.item.tree.hash in trees && TreesPresent(trees, e.item.tree.entries))
  {
    var es := [e] + rest;
    assert es[1..] == rest;
    assert Row([e.name], e.item) in Rows(e);
    assert forall r :: r in Listing(es) <==> r in Rows(e) || r in Listing(rest);
    if e.item.Dir? {
      var below := Listing(e.item.tree.entries);
      var shifted := Under([e.name], below);
      assert forall r :: r in Rows(e) <==> r == Row([e.name], e.item) || r in shifted;
      if !TreesPresent(trees, e.item.tree.entries) {
        var i :| 0 <= i < |below| && below[i].item.Dir? && below[i].item.tree.hash !in trees;
        assert shifted[i] in shifted;
      }
    }
  }

  /** A walk completes exactly when every subtree is there, and then it yields the whole listing. */
  lemma {:induction false} WalkExact(trees: set<Hash>, es: seq<Entry>)
    ensures Walk(trees, es).complete <==> TreesPresent(trees, es)
    ensures Walk(trees, es).complete ==> Walk(trees, es).rows == Listing(es)
    decreases es
  {
    if es != [] {
      var e := es[0];
      assert es == [e] + es[1..];
      PresentConcat(trees, e, es[1..]);
      WalkExact(trees, es[1..]);
      if e.item.Dir? {
        WalkExact(trees, e.item.tree.entries);
      }
    }
  }

  /** Reading the tree at a path, one stored object at a time. */
  function TreeAt(trees: set<Hash>, root: Tree, segs: seq<string>): Option<Tree>
    decreases segs
  {
    if segs == [] then Some(root)
    else
      var item := Find(root.entries, segs[0]);
      if item.Some? && item.value.Dir? && item.value.tree.hash in trees
      then TreeAt(trees, item.value.tree, segs[1..])
      else None
  }

  /** What lies below a tree found at a path is what lies below that path. */
  lemma {:induction false} TreeAtExact(trees: set<Hash>, root: Tree, segs: seq<string>, rest: seq<string>)
    requires Wf(root.entries) && TreeAt(trees, root, segs).Some? && rest != []
    ensures Wf(TreeAt(trees, root, segs).value.entries)
    ensures ItemAt(root.entries, segs + rest) == ItemAt(TreeAt(trees, root, segs).value.entries, rest)
    decreases segs
  {
    if segs == [] {
      assert segs + rest == rest;
    } else {
      var next := Find(root.entries, segs[0]).value.tree;
      WfDir(root.entries, segs[0], next);
      TreeAtExact(trees, next, segs[1..], rest);
      assert (segs + rest)[1..] == segs[1..] + rest;
    }
  }

  /** With every subtree present, a directory entry at a path is a tree that can be read there. */
  lemma {:induction false} TreeAtDir(trees: set<Hash>, root: Tree, segs: seq<string>, tree: Tree)
    requires Wf(root.entries) && TreesPresent(trees, root.entries)
    requires segs != [] && ItemAt(root.entries, segs) == Some(Dir(tree))
    ensures TreeAt(trees, root, segs) == Some(tree) && TreesPresent(trees, tree.entries)
    decreases segs
  {
    var next := Find(root.entries, segs[0]).value.tree;
    FindInWf(root.entries, segs[0], Dir(next));
    ListingExact(root.entries, [segs[0]], Dir(next));
    PresentBelow(trees, root.entries, segs[0], next);
    if |segs| > 1 {
      TreeAtDir(trees, next, segs[1..], tree);
    } else {
      assert TreeAt(trees, next, segs[1..]) == Some(next);
    }
  }

  lemma PresentBelow(trees: set<Hash>, es: seq<Entry>, name: string, tree: Tree)
    requires Wf(es) && TreesPresent(trees, es) && Find(es, name) == Some(Dir(tree))
    ensures Wf(tree.entries) && TreesPresent(trees, tree.entries)
  {
    WfDir(es, name, tree);
    forall r | r in Listing(tree.entries) && r.item.Dir? ensures r.item.tree.hash in trees {
      ListingExact(tree.entries, r.path, r.item);
      ListingExact(es, [name] + r.path, r.item);
      assert ([name] + r.path)[1..] == r.path;
    }
  }
}
