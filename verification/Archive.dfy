/**
 * The HTTP archive fallback (protocols/git/git_archive.go): which entries of a hosting platform's
 * tarball are extracted, and where they land.
 */
module Archive {
  import opened Options
  import opened Strings
  import opened Paths
  import opened SafePath
  import opened GitObjects
  import opened Cone
  import opened Checkout
  import opened Budget

  datatype TarKind = PaxHeader | TarDir | TarFile
  datatype TarEntry = TarEntry(name: string, kind: TarKind, mode: Mode, content: Bytes)

  function Slashed(v: string): string {
    seq(|v|, i requires 0 <= i < |v| => if v[i] == '\\' then '/' else v[i])
  }

  /** A ".." between slashes or backslashes. */
  predicate ContainsDotDot(v: string) {
    && (exists i :: 0 <= i < |v| - 1 && v[i] == '.' && v[i + 1] == '.')
    && ".." in Split(Slashed(v), '/')
  }

  function TrimRight(s: string, c: char): string {
    if s != [] && s[|s| - 1] == c then TrimRight(s[..|s| - 1], c) else s
  }

  datatype Verdict = Verdict(selected: bool, underSubdir: bool)

  /** archiveSelects */
  function Selects(rel: string, subdir: string, isDir: bool): Verdict {
    if rel == subdir || TrimRight(subdir, '/') + "/" <= rel then Verdict(true, true)
    else if isDir then Verdict(false, false)
    else
      Verdict(Parent(rel) in Ancestors(subdir), false)
  }

  datatype Status = Going | DotDot | OverBudget | SubdirNotFound
  /** An extraction under way; written counts every byte that reached the disk. */
  datatype Extraction = Extraction(
    files: Files, topDir: string, found: bool, remaining: int, written: nat, status: Status)

  function Fresh(files: Files, maxBytes: int): Extraction {
    Extraction(files, "", false, maxBytes, 0, Going)
  }

  /** Where an entry lands below the destination; by NameStaysInside it never leaves it. */
  function OutKey(root: string, rel: string): string {
    var key := DestKey(root, rel);
    if key.Some? then key.value else rel
  }

  function TopDir(topDir: string, name: string): string {
    if topDir == "" then Split(name, '/')[0] + "/" else topDir
  }

  /** What one entry does to an extraction under way. */
  function Step(x: Extraction, e: TarEntry, root: string, subdir: string, limited: bool, stamp: nat): Extraction {
    if x.status != Going || e.kind == PaxHeader then x
    else if ContainsDotDot(e.name) then x.(status := DotDot)
    else
      var top := TopDir(x.topDir, e.name);
      var rel := TrimPrefix(e.name, top);
      var y := x.(topDir := top);
      var v := if subdir == "" then Verdict(true, true) else Selects(rel, subdir, e.kind == TarDir);
      if rel == "" || !v.selected then y
      else
        var z := y.(found := y.found || v.underSubdir);
        if e.kind == TarDir then z
        else Write(z, OutKey(root, rel), e, limited, stamp)
  }

  function ChargeFor(e: TarEntry, limited: bool, remaining: int): Charge {
    if limited then Take(|e.content|, remaining) else Charge(|e.content|, false)
  }

  function Placed(files: Files, key: string, e: TarEntry, c: Charge, stamp: nat): Files {
    files[key := OnDisk(e.mode, if c.taken <= |e.content| then e.content[..c.taken] else e.content, stamp)]
  }

  function Write(x: Extraction, key: string, e: TarEntry, limited: bool, stamp: nat): Extraction {
    var c := ChargeFor(e, limited, x.remaining);
    x.(files := Placed(x.files, key, e, c, stamp),
       remaining := if c.over then x.remaining else x.remaining - c.taken,
       written := x.written + c.taken,
       status := if c.over then OverBudget else Going)
  }

  function Steps(
    x: Extraction, entries: seq<TarEntry>, root: string, subdir: string, limited: bool, stamp: nat): Extraction {
    if entries == [] then x
    else
      var n := |entries| - 1;
      Step(Steps(x, entries[..n], root, subdir, limited, stamp), entries[n], root, subdir, limited, stamp)
  }

  /** extractArchive as a function of the archive. */
  function Extracted(
    files: Files, entries: seq<TarEntry>, root: string, subdir: string, maxBytes: int, stamp: nat): Extraction {
    var x := Steps(Fresh(files, maxBytes), entries, root, subdir, maxBytes > 0, stamp);
    if x.status == Going && subdir != "" && !x.found then x.(status := SubdirNotFound) else x
  }

  /** One file; x is the extraction so far. */
  method WriteArchiveFile(
    dest: Destination, key: string, e: TarEntry, limited: bool, remaining: int, stamp: nat, ghost x: Extraction)
    returns (c: Charge)
    requires x.files == dest.files && x.remaining == remaining && x.status == Going
    modifies dest
    ensures Write(x, key, e, limited, stamp)
         == if c.over then x.(files := dest.files, written := x.written + c.taken, status := OverBudget)
            else x.(files := dest.files, written := x.written + c.taken, remaining := remaining - c.taken)
    ensures !limited ==> !c.over
    ensures limited && 0 <= remaining < MAX_INT64 ==>
              if |e.content| <= remaining then !c.over else c.over && c.taken == remaining + 1
    ensures (limited ==> 0 <= remaining < MAX_INT64) ==>
              var kept := if c.over then e.content[..c.taken] else e.content;
              dest.files == old(dest.files)[key := OnDisk(e.mode, kept, stamp)]
  {
    c := if limited then Take(|e.content|, remaining) else Charge(|e.content|, false);
    assert e.content[..|e.content|] == e.content;
    var kept := if c.taken <= |e.content| then e.content[..c.taken] else e.content;
    dest.files := dest.files[key := OnDisk(e.mode, kept, stamp)];
  }

  method ExtractArchive(
    entries: seq<TarEntry>, dest: Destination, subdir: string, maxBytes: int, stamp: nat) returns (status: Status)
    modifies dest
    ensures var x := Extracted(old(dest.files), entries, dest.root, subdir, maxBytes, stamp);
            dest.files == x.files && status == x.status
  {
    var topDir, found, remaining, limited := "", false, maxBytes, maxBytes > 0;
    ghost var written: nat := 0;
    ghost var start := Fresh(dest.files, maxBytes);
    for i := 0 to |entries|
      invariant Extraction(dest.files, topDir, found, remaining, written, Going)
             == Steps(start, entries[..i], dest.root, subdir, limited, stamp)
    {
      var e := entries[i];
      StepsNext(start, entries, dest.root, subdir, limited, stamp, i);
      if e.kind == PaxHeader {
        continue;
      }
      if ContainsDotDot(e.name) {
        StepsStop(start, entries, dest.root, subdir, limited, stamp, i + 1);
        return DotDot;
      }
      if topDir == "" {
        topDir := Split(e.name, '/')[0] + "/";
      }
      var rel := TrimPrefix(e.name, topDir);
      if rel == "" {
        continue;
      }
      if subdir != "" {
        var v := Selects(rel, subdir, e.kind == TarDir);
        if !v.selected {
          continue;
        }
        if v.underSubdir {
          found := true;
        }
      } else {
        found := true;
      }
      if e.kind == TarDir {
        continue;
      }
      ghost var x := Extraction(dest.files, topDir, found, remaining, written, Going);
      var c := WriteArchiveFile(dest, OutKey(dest.root, rel), e, limited, remaining, stamp, x);
      if c.over {
        StepsStop(start, entries, dest.root, subdir, limited, stamp, i + 1);
        return OverBudget;
      }
      remaining := remaining - c.taken;
      written := written + c.taken;
    }
    assert entries[..|entries|] == entries;
    if subdir != "" && !found {
      return SubdirNotFound;
    }
    return Going;
  }

  lemma StepsNext(
    x: Extraction, entries: seq<TarEntry>, root: string, subdir: string, limited: bool, stamp: nat, i: nat)
    requires i < |entries|
    ensures Steps(x, entries[..i + 1], root, subdir, limited, stamp)
         == Step(Steps(x, entries[..i], root, subdir, limited, stamp), entries[i], root, subdir, limited, stamp)
  {
    assert entries[..i + 1][..i] == entries[..i];
  }

  lemma {:induction false} StepsStop(
    x: Extraction, entries: seq<TarEntry>, root: string, subdir: string, limited: bool, stamp: nat, n: nat)
    requires n <= |entries| && Steps(x, entries[..n], root, subdir, limited, stamp).status != Going
    ensures Steps(x, entries, root, subdir, limited, stamp) == Steps(x, entries[..n], root, subdir, limited, stamp)
    decreases |entries| - n
  {
    if n < |entries| {
      assert entries[..n + 1][..n] == entries[..n];
      StepsStop(x, entries, root, subdir, limited, stamp, n + 1);
    } else {
      assert entries[..n] == entries;
    }
  }

  // No entry lands outside the destination.

  lemma {:induction false} SlashedConcat(a: string, b: string)
    ensures Slashed(a + b) == Slashed(a) + Slashed(b)
  {}

  function Front(parts: seq<string>, i: nat): string
    requires i <= |parts|
  {
    if i == 0 then "" else Join(parts[..i], '/') + "/"
  }

  function Back(parts: seq<string>, i: nat): string
    requires i < |parts|
  {
    if i + 1 == |parts| then "" else "/" + Join(parts[i + 1..], '/')
  }

  lemma JoinBack(parts: seq<string>, i: nat)
    requires i < |parts|
    ensures Join(parts[i..], '/') == parts[i] + Back(parts, i)
  {}

  lemma JoinAround(parts: seq<string>, i: nat)
    requires i < |parts|
    ensures Join(parts, '/') == Front(parts, i) + (parts[i] + Back(parts, i))
  {
    JoinBack(parts, i);
    if i > 0 {
      assert parts == parts[..i] + parts[i..];
      JoinConcat(parts[..i], parts[i..], '/');
    } else {
      assert parts[0..] == parts;
    }
  }

  /** A piece at the front of what follows a separator, or of the whole, is one of the pieces. */
  lemma PieceAt(front: string, rest: string, piece: string)
    requires front == "" || front[|front| - 1] == '/'
    requires Split(rest, '/')[0] == piece
    ensures piece in Split(front + rest, '/')
  {
    if front == "" {
      assert front + rest == rest;
    } else {
      var f := front[..|front| - 1];
      assert front + rest == f + ['/'] + rest;
      SplitConcat(f, rest, '/');
    }
  }

  lemma FirstPiece(piece: string, back: string)
    requires '/' !in piece && (back == "" || back[0] == '/')
    ensures Split(piece + back, '/')[0] == piece
  {
    SplitFree(piece, '/');
    if back == "" {
      assert piece + back == piece;
    } else {
      assert piece + back == piece + ['/'] + back[1..];
      SplitConcat(piece, back[1..], '/');
    }
  }

  lemma DotDotSeen(parts: seq<string>, i: nat)
    requires i < |parts| && parts[i] == ".."
    ensures ContainsDotDot(Join(parts, '/'))
  {
    JoinAround(parts, i);
    var front, back := Front(parts, i), Back(parts, i);
    var v := Join(parts, '/');
    assert v[|front|] == '.' && v[|front| + 1] == '.';
    SlashedConcat(front, ".." + back);
    SlashedConcat("..", back);
    FirstPiece("..", Slashed(back));
    assert Slashed("..") == "..";
    PieceAt(Slashed(front), ".." + Slashed(back), "..");
  }

  /** On names without backslashes the test finds ".." exactly where it is a segment of its own. */
  lemma DotDotExact(parts: seq<string>)
    requires parts != [] && forall p :: p in parts ==> '/' !in p && '\\' !in p
    ensures ContainsDotDot(Join(parts, '/')) <==> ".." in parts
  {
    var v := Join(parts, '/');
    SplitJoin(parts, '/');
    assert Slashed(v) == v by { NoBackslash(parts); }
    if ".." in parts {
      var i :| 0 <= i < |parts| && parts[i] == "..";
      DotDotSeen(parts, i);
    }
  }

  lemma {:induction false} NoBackslash(parts: seq<string>)
    requires forall p :: p in parts ==> '\\' !in p
    ensures '\\' !in Join(parts, '/')
    decreases parts
  {
    if parts != [] {
      assert parts[0] in parts;
      if |parts| > 1 {
        NoBackslash(parts[1..]);
      }
    }
  }

  /**
   * Every name the ".." test lets through stays inside the destination, whatever top-level
   * directory is stripped from it: safepath.Join would accept it too.
   */
  lemma NameStaysInside(root: string, name: string, top: string)
    requires Rooted(root) && CleanSegs(root) != []
    requires !ContainsDotDot(name) && '/' !in top
    ensures SafeJoin(root, TrimPrefix(name, top + "/")).Inside?
  {
    var rel := TrimPrefix(name, top + "/");
    JoinSplit(name, '/');
    if ".." in Split(rel, '/') {
      if rel != name {
        assert name == top + ['/'] + rel;
        SplitConcat(top, rel, '/');
      }
      assert ".." in Split(name, '/');
      var i :| 0 <= i < |Split(name, '/')| && Split(name, '/')[i] == "..";
      DotDotSeen(Split(name, '/'), i);
    }
    NoDotDotStays(root, rel);
  }

  // The predicate on path strings agrees with the cone.

  lemma TrimRightNames(segs: seq<string>)
    requires |segs| > 0 && Names(segs)
    ensures TrimRight(Join(segs, '/'), '/') == Join(segs, '/')
  {
    var last := segs[|segs| - 1];
    assert last in segs;
    JoinedEnds(segs);
  }

  /** Cleaning drops a trailing slash. */
  lemma CleanTrailing(dir: seq<string>)
    requires |dir| > 0 && Names(dir)
    ensures Clean(Join(dir, '/') + "/") == Join(dir, '/')
  {
    var d := Join(dir, '/');
    JoinedNotRooted(dir);
    assert d + "/" == d + ['/'] + "";
    SplitConcat(d, "", '/');
    SplitJoin(dir, '/');
    ResolveNames([], dir, false);
    ResolveConcat([], dir, [""], false);
    assert CleanSegs(d + "/") == dir;
  }

  lemma PathDirNames(path: seq<string>)
    requires |path| > 0 && Names(path)
    ensures PathDir(Join(path, '/')) == if |path| == 1 then "." else Join(path[..|path| - 1], '/')
  {
    SplitJoin(path, '/');
    if |path| > 1 {
      CleanTrailing(path[..|path| - 1]);
    }
  }

  /** path.Dir of a file, with "." for the repository root read as "". */
  function Parent(rel: string): string {
    if PathDir(rel) == "." then "" else PathDir(rel)
  }

  lemma ParentNames(path: seq<string>)
    requires |path| > 0 && Names(path)
    ensures Parent(Join(path, '/')) == Join(path[..|path| - 1], '/')
  {
    PathDirNames(path);
    var up := path[..|path| - 1];
    if up != [] {
      assert up[0] in path && Name(up[0]);
      if Join(up, '/') == "." {
        SplitJoin(up, '/');
        SplitFree(".", '/');
      }
    }
  }

  lemma AncestorIff(up: seq<string>, segs: seq<string>)
    requires Names(up) && |segs| > 0 && Names(segs)
    ensures Join(up, '/') in Ancestors(Join(segs, '/')) <==> |up| < |segs| && up <= segs
  {
    AncestorsOf(segs);
    var dirs := Ancestors(Join(segs, '/'));
    if Join(up, '/') in dirs {
      var i :| 0 <= i < |dirs| && dirs[i] == Join(up, '/');
      SameJoin(segs[..i], up);
    }
    if |up| < |segs| && up <= segs {
      assert segs[..|up|] == up;
      assert dirs[|up|] == Join(up, '/');
    }
  }

  lemma SameJoin(a: seq<string>, b: seq<string>)
    requires Names(a) && Names(b) && Join(a, '/') == Join(b, '/')
    ensures a == b
  {
    if a != [] { JoinedNotRooted(a); }
    if b != [] { JoinedNotRooted(b); }
    if a != [] && b != [] { JoinInjective(a, b, '/'); }
  }

  /** On a file the predicate is the cone, the directory's own path apart. */
  lemma SelectsFile(path: seq<string>, segs: seq<string>)
    requires |path| > 0 && Names(path) && |segs| > 0 && Names(segs)
    ensures Selects(Join(path, '/'), Join(segs, '/'), false) ==
            Verdict(InCone(path, segs) || path == segs, segs <= path)
  {
    var rel, subdir := Join(path, '/'), Join(segs, '/');
    assert rel == subdir <==> path == segs by {
      if rel == subdir { SameJoin(path, segs); }
    }
    assert TrimRight(subdir, '/') + "/" <= rel <==> |segs| < |path| && segs <= path by {
      TrimRightNames(segs);
      PrefixOfJoin(segs, path, '/');
    }
    assert Parent(rel) in Ancestors(subdir) <==> |path| <= |segs| && path[..|path| - 1] <= segs by {
      ParentNames(path);
      AncestorIff(path[..|path| - 1], segs);
    }
  }

  /** On a directory entry, with its trailing slash, it is lying at or under the requested one. */
  lemma SelectsDir(path: seq<string>, segs: seq<string>)
    requires |path| > 0 && Names(path) && |segs| > 0 && Names(segs)
    ensures Selects(Join(path, '/') + "/", Join(segs, '/'), true) == Verdict(segs <= path, segs <= path)
  {
    TrimRightNames(segs);
    JoinConcat(path, [""], '/');
    assert Join(path, '/') + "/" == Join(path + [""], '/');
    PrefixOfJoin(segs, path + [""], '/');
    JoinedEnds(segs);
    assert |segs| < |path + [""]| && segs <= path + [""] <==> segs <= path;
  }

  // The directory that is stripped.

  /** It is the first element of the first entry's name, headers apart, for all the entries behind it. */
  lemma {:induction false} TopDirFixed(
    files: Files, headers: seq<TarEntry>, first: TarEntry, rest: seq<TarEntry>, root: string, subdir: string,
    maxBytes: int, stamp: nat)
    requires (forall h :: h in headers ==> h.kind == PaxHeader) && first.kind != PaxHeader
    ensures var x := Steps(Fresh(files, maxBytes), headers + [first] + rest, root, subdir, maxBytes > 0, stamp);
            x.status == Going ==> x.topDir == Split(first.name, '/')[0] + "/"
    decreases rest
  {
    var all := headers + [first] + rest;
    if rest == [] {
      assert all == headers + [first] && all[..|headers|] == headers;
      HeadersSkipped(Fresh(files, maxBytes), headers, root, subdir, maxBytes > 0, stamp);
    } else {
      var n := |rest| - 1;
      TopDirFixed(files, headers, first, rest[..n], root, subdir, maxBytes, stamp);
      assert all[..|all| - 1] == headers + [first] + rest[..n];
    }
  }

  lemma {:induction false} HeadersSkipped(
    x: Extraction, headers: seq<TarEntry>, root: string, subdir: string, limited: bool, stamp: nat)
    requires forall h :: h in headers ==> h.kind == PaxHeader
    ensures Steps(x, headers, root, subdir, limited, stamp) == x
    decreases headers
  {
    if headers != [] {
      var n := |headers| - 1;
      assert headers[n] in headers;
      HeadersSkipped(x, headers[..n], root, subdir, limited, stamp);
    }
  }

  /** So a file in that directory loses it, and any other keeps its whole name. */
  lemma OnlyFirstTopStripped(
    files: Files, headers: seq<TarEntry>, first: TarEntry, rest: seq<TarEntry>, e: TarEntry, root: string, rel: string,
    maxBytes: int, stamp: nat)
    requires (forall h :: h in headers ==> h.kind == PaxHeader) && first.kind != PaxHeader && e.kind == TarFile
    requires var top := Split(first.name, '/')[0] + "/";
             e.name == top + rel || (e.name == rel && !(top <= rel))
    requires rel != "" && DestKey(root, rel).Some? && maxBytes <= 0
    ensures var x := Extracted(files, headers + [first] + rest + [e], root, "", maxBytes, stamp);
            x.status == Going ==>
              var key := DestKey(root, rel).value; key in x.files && x.files[key] == OnDisk(e.mode, e.content, stamp)
  {
    var front := headers + [first] + rest;
    TopDirFixed(files, headers, first, rest, root, "", maxBytes, stamp);
    assert (front + [e])[..|front|] == front;
    var x := Steps(Fresh(files, maxBytes), front, root, "", maxBytes > 0, stamp);
    if x.status == Going && !ContainsDotDot(e.name) {
      assert TrimPrefix(e.name, x.topDir) == rel;
      WriteFits(x, DestKey(root, rel).value, e, false, stamp);
    }
  }

  // Extracting an archive of a tree.

  ghost predicate IsDirPath(es: seq<Entry>, path: seq<string>) {
    ItemAt(es, path).Some? && ItemAt(es, path).value.Dir?
  }

  ghost predicate IsFileOf(es: seq<Entry>, blobs: map<Hash, Bytes>, path: seq<string>, e: TarEntry) {
    && ItemAt(es, path).Some? && ItemAt(es, path).value.File?
    && var f := ItemAt(es, path).value;
       e.mode == f.mode && f.blob in blobs && e.content == blobs[f.blob]
  }

  /** An entry of the archive of a tree under one top-level directory. */
  ghost predicate EntryOf(e: TarEntry, top: string, es: seq<Entry>, blobs: map<Hash, Bytes>) {
    || e.kind == PaxHeader
    || (e.kind == TarDir && e.name == top + "/")
    || (e.kind == TarDir && exists path :: IsDirPath(es, path) && e.name == top + "/" + (Join(path, '/') + "/"))
    || (e.kind == TarFile && exists path :: IsFileOf(es, blobs, path, e) && e.name == top + "/" + Join(path, '/'))
  }

  /**
   * The archive of a tree: every file of the tree is there, in any order, among its directories
   * and headers, under one top-level directory. Names the ".." test refuses are left to it.
   */
  ghost predicate ArchiveOf(entries: seq<TarEntry>, top: string, es: seq<Entry>, blobs: map<Hash, Bytes>) {
    && Name(top)
    && (forall e :: e in entries ==> EntryOf(e, top, es, blobs) && !ContainsDotDot(e.name))
    && (forall k :: k in FileKeys(es) ==> exists e :: e in entries && e.kind == TarFile && e.name == top + "/" + k)
  }

  function Rel(e: TarEntry, top: string): string {
    TrimPrefix(e.name, top + "/")
  }

  /** At or under the requested directory. */
  predicate AtOrUnder(e: TarEntry, top: string, segs: seq<string>) {
    e.kind != PaxHeader && Rel(e, top) != "" && segs <= Split(Rel(e, top), '/')
  }

  predicate ConeFile(e: TarEntry, top: string, segs: seq<string>) {
    e.kind == TarFile && InCone(Split(Rel(e, top), '/'), segs)
  }

  /** What an archive holds of the cone: how many bytes, which files, and whether anything lies at or under it. */
  datatype Summary = Summary(bytes: nat, keys: set<string>, under: bool)

  function Count(s: Summary, e: TarEntry, top: string, segs: seq<string>): Summary {
    var t := s.(under := s.under || AtOrUnder(e, top, segs));
    if ConeFile(e, top, segs) then t.(bytes := t.bytes + |e.content|, keys := t.keys + {Rel(e, top)}) else t
  }

  function Summarise(entries: seq<TarEntry>, top: string, segs: seq<string>): Summary {
    if entries == [] then Summary(0, {}, false)
    else Count(Summarise(entries[..|entries| - 1], top, segs), entries[|entries| - 1], top, segs)
  }

  lemma {:induction false} SummaryExact(entries: seq<TarEntry>, top: string, segs: seq<string>)
    ensures Summarise(entries, top, segs).keys == ConeKeys(entries, top, segs)
    ensures Summarise(entries, top, segs).under <==> exists e :: e in entries && AtOrUnder(e, top, segs)
    decreases entries
  {
    if entries == [] {
      assert ConeKeys(entries, top, segs) == {};
    } else {
      var n := |entries| - 1;
      SummaryExact(entries[..n], top, segs);
      assert forall e :: e in entries <==> e in entries[..n] || e == entries[n];
      assert ConeKeys(entries, top, segs)
          == ConeKeys(entries[..n], top, segs) + if ConeFile(entries[n], top, segs) then {Rel(entries[n], top)} else {};
    }
  }

  lemma StripTop(top: string, rest: string)
    requires '/' !in top
    ensures TopDir("", top + "/" + rest) == top + "/"
    ensures TrimPrefix(top + "/" + rest, top + "/") == rest
  {
    assert top + "/" + rest == top + ['/'] + rest;
    SplitConcat(top, rest, '/');
    SplitFree(top, '/');
  }

  lemma ItemNames(es: seq<Entry>, path: seq<string>)
    requires Wf(es) && ItemAt(es, path).Some?
    ensures |path| > 0 && Names(path)
  {
    ListingExact(es, path, ItemAt(es, path).value);
    ListingDistinct(es);
  }

  /** A clean relative path that does not name a file of the tree; it may name nothing, and be the root's. */
  ghost predicate Subdir(es: seq<Entry>, segs: seq<string>) {
    Names(segs) && !(ItemAt(es, segs).Some? && ItemAt(es, segs).value.File?)
  }

  /** What one entry of a tree's archive does, said with segments. */
  ghost function TreeStep(
    x: Extraction, e: TarEntry, top: string, segs: seq<string>, limited: bool, stamp: nat): Extraction {
    if e.kind == PaxHeader then x
    else
      var y := x.(topDir := top + "/", found := x.found || AtOrUnder(e, top, segs));
      if ConeFile(e, top, segs) then Write(y, Rel(e, top), e, limited, stamp) else y
  }

  lemma DirEntry(e: TarEntry, top: string, path: seq<string>, segs: seq<string>)
    requires Name(top) && |path| > 0 && Names(path) && Names(segs)
    requires e.kind == TarDir && e.name == top + "/" + (Join(path, '/') + "/")
    ensures Rel(e, top) != "" && AtOrUnder(e, top, segs) == (segs <= path)
    ensures segs != [] ==> Selects(Rel(e, top), Join(segs, '/'), true) == Verdict(segs <= path, segs <= path)
  {
    StripTop(top, Join(path, '/') + "/");
    if segs != [] {
      SelectsDir(path, segs);
      assert segs[|segs| - 1] in segs;
    }
    assert Join(path, '/') + "/" == Join(path, '/') + ['/'] + "";
    SplitConcat(Join(path, '/'), "", '/');
    SplitJoin(path, '/');
  }

  lemma FileEntry(e: TarEntry, top: string, path: seq<string>, segs: seq<string>)
    requires Name(top) && |path| > 0 && Names(path) && Names(segs) && path != segs
    requires e.kind == TarFile && e.name == top + "/" + Join(path, '/')
    ensures Rel(e, top) == Join(path, '/') != "" && Split(Rel(e, top), '/') == path
    ensures segs != [] ==>
              Selects(Rel(e, top), Join(segs, '/'), false) == Verdict(InCone(path, segs), segs <= path)
  {
    StripTop(top, Join(path, '/'));
    JoinedNotRooted(path);
    SplitJoin(path, '/');
    if segs != [] {
      SelectsFile(path, segs);
    }
  }

  lemma StepOnTree(
    x: Extraction, e: TarEntry, root: string, top: string, es: seq<Entry>, blobs: map<Hash, Bytes>, segs: seq<string>,
    limited: bool, stamp: nat)
    requires Rooted(root) && CleanSegs(root) != [] && Name(top)
    requires Wf(es) && Subdir(es, segs) && EntryOf(e, top, es, blobs) && !ContainsDotDot(e.name)
    requires x.status == Going && (x.topDir == "" || x.topDir == top + "/")
    ensures Step(x, e, root, Join(segs, '/'), limited, stamp) == TreeStep(x, e, top, segs, limited, stamp)
  {
    if segs != [] {
      JoinedNotRooted(segs);
    }
    if e.kind == TarDir && e.name == top + "/" {
      StripTop(top, "");
      assert top + "/" + "" == top + "/";
    } else if e.kind == TarDir {
      var path :| IsDirPath(es, path) && e.name == top + "/" + (Join(path, '/') + "/");
      ItemNames(es, path);
      StripTop(top, Join(path, '/') + "/");
      DirEntry(e, top, path, segs);
    } else if e.kind == TarFile {
      StepOnFile(x, e, root, top, es, blobs, segs, limited, stamp);
    }
  }

  lemma StepOnFile(
    x: Extraction, e: TarEntry, root: string, top: string, es: seq<Entry>, blobs: map<Hash, Bytes>, segs: seq<string>,
    limited: bool, stamp: nat)
    requires Rooted(root) && CleanSegs(root) != [] && Name(top) && e.kind == TarFile
    requires Wf(es) && Subdir(es, segs) && EntryOf(e, top, es, blobs) && !ContainsDotDot(e.name)
    requires x.status == Going && (x.topDir == "" || x.topDir == top + "/")
    requires segs != [] ==> Join(segs, '/') != ""
    ensures Step(x, e, root, Join(segs, '/'), limited, stamp) == TreeStep(x, e, top, segs, limited, stamp)
  {
    var path :| IsFileOf(es, blobs, path, e) && e.name == top + "/" + Join(path, '/');
    ItemNames(es, path);
    StripTop(top, Join(path, '/'));
    FileEntry(e, top, path, segs);
    PlainKey(root, Rel(e, top));
  }

  function ConeKeys(entries: seq<TarEntry>, top: string, segs: seq<string>): set<string> {
    set e | e in entries && ConeFile(e, top, segs) :: Rel(e, top)
  }

  predicate Fits(s: Summary, maxBytes: int) {
    maxBytes <= 0 || s.bytes <= maxBytes
  }

  /** The state of an extraction whose written entries still fit the budget; full is the full checkout. */
  ghost predicate Tracks(x: Extraction, s: Summary, top: string, full: Files, maxBytes: int) {
    && x.status == Going && (x.topDir == "" || x.topDir == top + "/")
    && x.found == s.under
    && (maxBytes > 0 ==> x.remaining == maxBytes - s.bytes)
    && x.files.Keys == s.keys
    && forall k :: k in x.files ==> k in full && x.files[k] == full[k]
  }

  lemma ConeFileContent(
    e: TarEntry, top: string, es: seq<Entry>, blobs: map<Hash, Bytes>, segs: seq<string>, stamp: nat)
    requires Name(top) && Wf(es) && Subdir(es, segs) && EntryOf(e, top, es, blobs) && ConeFile(e, top, segs)
    ensures Rel(e, top) in TreeFiles(es, blobs, stamp)
    ensures TreeFiles(es, blobs, stamp)[Rel(e, top)] == OnDisk(e.mode, e.content, stamp)
  {
    var path :| IsFileOf(es, blobs, path, e) && e.name == top + "/" + Join(path, '/');
    ItemNames(es, path);
    FileEntry(e, top, path, segs);
    FileKeysExact(es, Rel(e, top));
  }

  lemma WriteFits(x: Extraction, key: string, e: TarEntry, limited: bool, stamp: nat)
    requires limited ==> 0 <= x.remaining < MAX_INT64
    ensures limited && |e.content| > x.remaining ==> Write(x, key, e, limited, stamp).status == OverBudget
    ensures !(limited && |e.content| > x.remaining) ==>
              Write(x, key, e, limited, stamp)
                == x.(files := x.files[key := OnDisk(e.mode, e.content, stamp)], remaining := x.remaining - |e.content|,
                      written := x.written + |e.content|, status := Going)
  {
    if limited {
      TakeExactIffNoWrap(x.remaining);
      assert Faithful(|e.content|, x.remaining);
    }
    assert e.content[..|e.content|] == e.content;
  }

  /** The budget never goes below zero, it is the limit minus what was written, and one byte past it ends the run. */
  ghost predicate InBudget(x: Extraction, maxBytes: int) {
    if x.status == OverBudget then x.written == maxBytes + 1
    else 0 <= x.remaining && x.written + x.remaining == maxBytes
  }

  lemma {:induction false} StepsInBudget(
    x: Extraction, entries: seq<TarEntry>, root: string, subdir: string, maxBytes: int, stamp: nat)
    requires 0 < maxBytes < MAX_INT64 && InBudget(x, maxBytes)
    ensures InBudget(Steps(x, entries, root, subdir, true, stamp), maxBytes)
    decreases entries
  {
    if entries != [] {
      var n := |entries| - 1;
      StepsInBudget(x, entries[..n], root, subdir, maxBytes, stamp);
      StepInBudget(Steps(x, entries[..n], root, subdir, true, stamp), entries[n], root, subdir, maxBytes, stamp);
    }
  }

  lemma StepInBudget(x: Extraction, e: TarEntry, root: string, subdir: string, maxBytes: int, stamp: nat)
    requires 0 < maxBytes < MAX_INT64 && InBudget(x, maxBytes)
    ensures InBudget(Step(x, e, root, subdir, true, stamp), maxBytes)
  {}

  /**
   * For every archive and every limit: a run that is not out of budget has written at most the
   * limit, and one that is has written exactly one byte more.
   */
  lemma WritesWithinBudget(
    files: Files, entries: seq<TarEntry>, root: string, subdir: string, maxBytes: int, stamp: nat)
    requires 0 < maxBytes < MAX_INT64
    ensures InBudget(Extracted(files, entries, root, subdir, maxBytes, stamp), maxBytes)
  {
    StepsInBudget(Fresh(files, maxBytes), entries, root, subdir, maxBytes, stamp);
  }

  lemma TracksWrite(
    x: Extraction, s: Summary, e: TarEntry, key: string, top: string, full: Files, maxBytes: int, stamp: nat)
    requires maxBytes < MAX_INT64 && Fits(s, maxBytes) && Tracks(x, s, top, full, maxBytes)
    requires key in full && full[key] == OnDisk(e.mode, e.content, stamp)
    ensures var t := s.(bytes := s.bytes + |e.content|, keys := s.keys + {key});
            if Fits(t, maxBytes) then Tracks(Write(x, key, e, maxBytes > 0, stamp), t, top, full, maxBytes)
            else Write(x, key, e, maxBytes > 0, stamp).status == OverBudget
  {
    WriteFits(x, key, e, maxBytes > 0, stamp);
    assert x.files[key := OnDisk(e.mode, e.content, stamp)].Keys == x.files.Keys + {key};
  }

  lemma TracksOneMore(
    x: Extraction, s: Summary, e: TarEntry, top: string, full: Files, segs: seq<string>, maxBytes: int, stamp: nat)
    requires maxBytes < MAX_INT64 && Fits(s, maxBytes) && Tracks(x, s, top, full, maxBytes)
    requires ConeFile(e, top, segs) ==> Rel(e, top) in full && full[Rel(e, top)] == OnDisk(e.mode, e.content, stamp)
    ensures var t := Count(s, e, top, segs);
            if Fits(t, maxBytes) then Tracks(TreeStep(x, e, top, segs, maxBytes > 0, stamp), t, top, full, maxBytes)
            else TreeStep(x, e, top, segs, maxBytes > 0, stamp).status == OverBudget
  {
    var under := AtOrUnder(e, top, segs);
    if ConeFile(e, top, segs) {
      var y, u := x.(topDir := top + "/", found := x.found || under), s.(under := s.under || under);
      TracksWrite(y, u, e, Rel(e, top), top, full, maxBytes, stamp);
    }
  }

  lemma {:induction false} StepsOnTree(
    entries: seq<TarEntry>, n: nat, root: string, top: string, es: seq<Entry>, blobs: map<Hash, Bytes>,
    segs: seq<string>, maxBytes: int, stamp: nat)
    requires Rooted(root) && CleanSegs(root) != []
    requires Wf(es) && Subdir(es, segs) && ArchiveOf(entries, top, es, blobs)
    requires maxBytes < MAX_INT64 && n <= |entries|
    ensures var x := Steps(Fresh(map[], maxBytes), entries[..n], root, Join(segs, '/'), maxBytes > 0, stamp);
            var s := Summarise(entries[..n], top, segs);
            if Fits(s, maxBytes) then Tracks(x, s, top, TreeFiles(es, blobs, stamp), maxBytes)
              else x.status == OverBudget
  {
    if n > 0 {
      StepsOnTree(entries, n - 1, root, top, es, blobs, segs, maxBytes, stamp);
      var before := Steps(Fresh(map[], maxBytes), entries[..n - 1], root, Join(segs, '/'), maxBytes > 0, stamp);
      var s := Summarise(entries[..n - 1], top, segs);
      var e := entries[n - 1];
      assert e in entries;
      assert entries[..n][..n - 1] == entries[..n - 1];
      if Fits(s, maxBytes) {
        StepOnTree(before, e, root, top, es, blobs, segs, maxBytes > 0, stamp);
        if ConeFile(e, top, segs) { ConeFileContent(e, top, es, blobs, segs, stamp); }
        TracksOneMore(before, s, e, top, TreeFiles(es, blobs, stamp), segs, maxBytes, stamp);
      }
    }
  }

  /**
   * The archive mirrors the tree walk. For every tree, every subdirectory path that is not a file's
   * and every order of the entries: the extraction runs out of budget exactly when the cone's files together exceed it;
   * otherwise it writes exactly the full checkout's files that lie in the cone, all of them for the
   * root, and it reports the directory missing exactly when it is not the root and no entry lies at or
   * under it.
   */
  lemma ArchiveIsCone(
    entries: seq<TarEntry>, root: string, top: string, es: seq<Entry>, blobs: map<Hash, Bytes>, segs: seq<string>,
    maxBytes: int, stamp: nat)
    requires Rooted(root) && CleanSegs(root) != []
    requires Wf(es) && Subdir(es, segs) && ArchiveOf(entries, top, es, blobs)
    requires forall r :: r in Listing(es) && r.item.File? ==> r.item.mode == Regular || r.item.mode == Executable
    requires maxBytes < MAX_INT64
    ensures var x := Extracted(map[], entries, root, Join(segs, '/'), maxBytes, stamp);
            && (x.status == OverBudget <==> maxBytes > 0 && Summarise(entries, top, segs).bytes > maxBytes)
            && (x.status != OverBudget ==>
                  && x.files == Restrict(TreeFiles(es, blobs, stamp), segs)
                  && (segs == [] ==> x.files == TreeFiles(es, blobs, stamp))
                  && x.status == if segs == [] || exists e :: e in entries && AtOrUnder(e, top, segs) then Going
                                 else SubdirNotFound)
  {
    StepsOnTree(entries, |entries|, root, top, es, blobs, segs, maxBytes, stamp);
    assert entries[..|entries|] == entries;
    assert segs != [] ==> Join(segs, '/') != "" by { if segs != [] { JoinedNotRooted(segs); } }
    SummaryExact(entries, top, segs);
    if Fits(Summarise(entries, top, segs), maxBytes) {
      ConeKeysAll(entries, top, es, blobs, segs, stamp);
      var files := Extracted(map[], entries, root, Join(segs, '/'), maxBytes, stamp).files;
      SameAsRestricted(files, TreeFiles(es, blobs, stamp), segs);
      if segs == [] { RootCone(es, blobs, stamp); }
    }
  }

  /** Where no file has the legacy mode the root's cone is everything. */
  lemma RootCone(es: seq<Entry>, blobs: map<Hash, Bytes>, stamp: nat)
    requires Wf(es)
    requires forall r :: r in Listing(es) && r.item.File? ==> r.item.mode == Regular || r.item.mode == Executable
    ensures Restrict(TreeFiles(es, blobs, stamp), []) == TreeFiles(es, blobs, stamp)
  {
    var full := TreeFiles(es, blobs, stamp);
    forall k | k in full ensures InCone(Split(k, '/'), []) && full[k].mode != Legacy {
      FileRow(es, k);
    }
    assert Restrict(full, []).Keys == full.Keys;
  }

  lemma SameAsRestricted(files: Files, full: Files, segs: seq<string>)
    requires files.Keys == Restrict(full, segs).Keys
    requires forall k :: k in files ==> k in full && files[k] == full[k]
    ensures files == Restrict(full, segs)
  {}

  /** The cone's entries of an archive name exactly the cone's files of the tree. */
  lemma ConeKeysAll(
    entries: seq<TarEntry>, top: string, es: seq<Entry>, blobs: map<Hash, Bytes>, segs: seq<string>, stamp: nat)
    requires Wf(es) && Subdir(es, segs) && ArchiveOf(entries, top, es, blobs)
    requires forall r :: r in Listing(es) && r.item.File? ==> r.item.mode == Regular || r.item.mode == Executable
    ensures ConeKeys(entries, top, segs) == Restrict(TreeFiles(es, blobs, stamp), segs).Keys
  {
    forall e | e in entries && ConeFile(e, top, segs)
      ensures Rel(e, top) in Restrict(TreeFiles(es, blobs, stamp), segs)
    {
      ConeFileContent(e, top, es, blobs, segs, stamp);
      FileRow(es, Rel(e, top));
    }
    forall k | k in Restrict(TreeFiles(es, blobs, stamp), segs) ensures k in ConeKeys(entries, top, segs) {
      var e :| e in entries && e.kind == TarFile && e.name == top + "/" + k;
      StripTop(top, k);
    }
  }

  /** Where the two ways part: a path naming a file is a find in an archive and an error in a tree. */
  lemma FileAsSubdirDiffers(trees: set<Hash>, root: Tree, segs: seq<string>)
    requires Wf(root.entries) && ItemAt(root.entries, segs).Some? && ItemAt(root.entries, segs).value.File?
    ensures Selects(Join(segs, '/'), Join(segs, '/'), false) == Verdict(true, true)
    ensures SelectIn(trees, root, Join(segs, '/')).None?
  {
    ItemNames(root.entries, segs);
    SelectRows(trees, root, segs);
    TreeAtNotFile(trees, root, segs);
  }

  lemma {:induction false} TreeAtNotFile(trees: set<Hash>, root: Tree, segs: seq<string>)
    requires ItemAt(root.entries, segs).Some? && ItemAt(root.entries, segs).value.File?
    ensures TreeAt(trees, root, segs).None?
    decreases segs
  {
    if |segs| > 1 && TreeAt(trees, root, segs).Some? {
      TreeAtNotFile(trees, Find(root.entries, segs[0]).value.tree, segs[1..]);
    }
  }

  /** The two ways of getting a subdirectory leave the same files. */
  lemma ArchiveMatchesSparse(
    entries: seq<TarEntry>, root: string, top: string, tree: Tree, store: Store, segs: seq<string>, sel: Selection,
    maxBytes: int, stamp: nat)
    requires Rooted(root) && CleanSegs(root) != []
    requires segs != [] && Wf(tree.entries) && Subdir(tree.entries, segs)
            && ArchiveOf(entries, top, tree.entries, store.blobs)
    requires forall r :: r in Listing(tree.entries) && r.item.File? ==>
            r.item.mode == Regular || r.item.mode == Executable
    requires maxBytes <= 0 || Summarise(entries, top, segs).bytes <= maxBytes < MAX_INT64
    requires SelectIn(store.trees, tree, Join(segs, '/')) == Some(sel) && BlobsPresent(store.blobs, tree.entries)
    ensures Extracted(map[], entries, root, Join(segs, '/'), maxBytes, stamp).files
         == WriteAll(map[], root, store.blobs, sel.files, stamp).files
  {
    ArchiveIsCone(entries, root, top, tree.entries, store.blobs, segs, maxBytes, stamp);
    SelectRows(store.trees, tree, segs);
    SelectIsCone(store.trees, tree, segs);
    forall h | h in BlobsOf(sel.files) ensures h in store.blobs {
      var f :| f in sel.files && f.blob == h;
      assert SparseEntry(f.path, f.mode, f.blob) in sel.files;
      FileRow(tree.entries, f.path);
    }
    SparseRefinesCheckout(root, store, tree, segs, sel, store.blobs, stamp);
  }
}
