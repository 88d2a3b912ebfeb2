/** The scan of the monolithic archiver: `CloudArchiver.traverse` and the
    helpers it calls. It differs from the modular scan in three ways: its
    staleness of a directory starts the running minimum at 0, it ignores the
    two reserved names instead of a caller's list, and it builds every entry
    with the `ArchivePath` constructor, which marks reserved names ignored. */
module CloudArchiver {
  import opened Wrappers
  import opened Paths
  import opened Disk
  import opened Listings
  import opened Staleness
  import opened ArchivePaths

  // ---------------------------------------------------------------------------
  // _days_since_last_access
  // ---------------------------------------------------------------------------

  /** The staleness the monolithic archiver reports: a file's own days, and
      for anything else the directory staleness capped at 0, because the
      running minimum over its children starts at 0 instead of at nothing. */
  ghost function LegacyDays(nodes: Tree, now: int, p: Path): int {
    if IsFile(nodes, p) then FileDays(now, nodes[p].atime)
    else
      var d := DirectoryDays(nodes, now, p);
      if d < 0 then d else 0
  }

  /** `r` is at most 0 and at most the days of every file below `p` inside one
      of the children `done`, and is 0 or the days of some file below `p`. */
  ghost predicate LegacyBound(nodes: Tree, now: int, p: Path, done: seq<string>, r: int) {
    && r <= 0
    && (forall q :: q in FilesUnder(nodes, p) && q[|p|] in done ==> r <= FileDays(now, nodes[q].atime))
    && (r == 0 || exists q :: q in FilesUnder(nodes, p) && r == FileDays(now, nodes[q].atime))
  }

  /** Taking the minimum with one more child's legacy days extends the bound
      to that child. */
  lemma LegacyBoundStep(nodes: Tree, now: int, p: Path, done: seq<string>, c: string, r: int, d: int)
    requires WellFormed(nodes) && p + [c] in nodes
    requires LegacyBound(nodes, now, p, done, r)
    requires d == LegacyDays(nodes, now, p + [c])
    ensures LegacyBound(nodes, now, p, done + [c], if d < r then d else r)
  {
    var here := p + [c];
    var m := if d < r then d else r;
    DirectoryDaysIsMinimum(nodes, now, here);
    forall q | q in FilesUnder(nodes, here) ensures q in FilesUnder(nodes, p) {
      assert q[..|p|] == here[..|p|];
    }
    forall q | q in FilesUnder(nodes, p) && q[|p|] in done + [c]
      ensures m <= FileDays(now, nodes[q].atime)
    {
      if q[|p|] == c {
        FileUnderChild(nodes, p, q);
        if |q| == |p| + 1 {
          assert q == here;
        }
      }
    }
    if IsFile(nodes, here) {
      assert here[..|p|] == p;
      assert here in FilesUnder(nodes, p);
    }
  }

  /** Once every child is in, the bound pins the value down to the legacy days. */
  lemma LegacyBoundComplete(nodes: Tree, now: int, p: Path, names: seq<string>, r: int)
    requires WellFormed(nodes) && IsDirectory(nodes, p)
    requires forall c :: p + [c] in nodes ==> c in names
    requires LegacyBound(nodes, now, p, names, r)
    ensures r == LegacyDays(nodes, now, p)
  {
    DirectoryDaysIsMinimum(nodes, now, p);
    forall q | q in FilesUnder(nodes, p) ensures q[|p|] in names {
      FileUnderChild(nodes, p, q);
    }
  }

  /** `_days_since_last_access`: a directory's days are the running minimum of
      its children's, started at 0; anything else is a file, and its days are
      whole days since its last access (`_convert_seconds_to_days`). */
  method DaysSinceLastAccess(fs: FileSystem, now: int, path: string) returns (days: int)
    requires fs.Valid() && path != "" && Resolve(fs.cwd, path) in fs.nodes
    ensures days == LegacyDays(fs.nodes, now, Resolve(fs.cwd, path))
    decreases |Descendants(fs.nodes, Resolve(fs.cwd, path))|, 1
  {
    var p := Resolve(fs.cwd, path);
    if IsDirPath(fs.nodes, fs.cwd, path) {
      var names := ListDir(fs, p);
      days := MinOverChildren(fs, now, path, names);
      LegacyBoundComplete(fs.nodes, now, p, names, days);
    } else {
      days := SecondsToDays(now - fs.nodes[p].atime);
    }
  }

  /** The loop of `_days_since_last_access` over the children `names` of the
      directory `path`: the running minimum of their days, seeded with 0. */
  method MinOverChildren(fs: FileSystem, now: int, path: string, names: seq<string>) returns (days: int)
    requires fs.Valid() && IsDirPath(fs.nodes, fs.cwd, path)
    requires forall c :: c in names ==> Resolve(fs.cwd, path) + [c] in fs.nodes
    ensures LegacyBound(fs.nodes, now, Resolve(fs.cwd, path), names, days)
    decreases |Descendants(fs.nodes, Resolve(fs.cwd, path))|, 0
  {
    var p := Resolve(fs.cwd, path);
    var latest: Option<int> := Some(0);
    for i := 0 to |names|
      invariant latest.Some? && LegacyBound(fs.nodes, now, p, names[..i], latest.value)
    {
      var c := names[i];
      ChildNameValid(fs.nodes, p, c);
      ResolveJoin(fs.cwd, path, c);
      ChildHasFewerDescendants(fs.nodes, p, c);
      var sub := Join(path, c);
      var d := DaysSinceLastAccess(fs, now, sub);
      LegacyBoundStep(fs.nodes, now, p, names[..i], c, latest.value, d);
      TakeOneMore(names, i);
      if latest.None? || d < latest.value {
        latest := Some(d);
      }
    }
    assert names[..|names|] == names;
    days := latest.value;
  }

  /** A directory never reports more than 0 days, so with any threshold of at
      least one day no directory qualifies for archiving. */
  lemma DirectoryNeverQualifies(nodes: Tree, now: int, p: Path, threshold: int)
    requires IsDirectory(nodes, p) && threshold >= 1
    ensures LegacyDays(nodes, now, p) <= 0 < threshold
  {
  }

  /** A directory holding one file last read five days ago: the legacy rule
      reports 0 days for it, where the minimum over its files is 5, so with a
      threshold of 1 it is kept although every file in it is stale. */
  lemma LegacyHidesStaleDirectory()
    ensures LegacyDays(StaleExample(), 5 * SecondsPerDay, ["d"]) == 0
    ensures DirectoryDays(StaleExample(), 5 * SecondsPerDay, ["d"]) == 5
  {
    var nodes := StaleExample();
    var now := 5 * SecondsPerDay;
    var f := ["d", "f"];
    assert StrictPrefix(["d"], f) by {
      assert f[..1] == ["d"];
    }
    assert FilesUnder(nodes, ["d"]) == {f};
    assert FileDays(now, nodes[f].atime) == 5 by {
      SecondsToDaysUnique(now, 5);
    }
    DirectoryDaysCharacterized(nodes, now, ["d"], 5);
  }

  /** The tree of `LegacyHidesStaleDirectory`: `/d/f`, accessed at time 0. */
  function StaleExample(): Tree {
    map[[] := Directory, ["d"] := Directory, ["d", "f"] := File(0, 1970, 1)]
  }

  // ---------------------------------------------------------------------------
  // _paths_in
  // ---------------------------------------------------------------------------

  /** What `_paths_in` finds through the child `c` of `path`: every file below
      it when it is a directory, otherwise its own path. */
  ghost function ChildPaths(nodes: Tree, cwd: Path, path: string, c: string): set<string> {
    if IsDirectory(nodes, Resolve(cwd, path) + [c]) then FileKeys(nodes, cwd, Join(path, c)) else {Join(path, c)}
  }

  ghost function ChildrenPaths(nodes: Tree, cwd: Path, path: string, cs: set<string>): set<string> {
    set c, s | c in cs && s in ChildPaths(nodes, cwd, path, c) :: s
  }

  /** The files below a directory are those found through its children. */
  lemma FileKeysByChild(nodes: Tree, cwd: Path, path: string)
    requires WellFormed(nodes) && IsDirPath(nodes, cwd, path)
    ensures FileKeys(nodes, cwd, path) == ChildrenPaths(nodes, cwd, path, ChildNames(nodes, Resolve(cwd, path)))
  {
    var cs := ChildNames(nodes, Resolve(cwd, path));
    forall s | s in FileKeys(nodes, cwd, path) ensures s in ChildrenPaths(nodes, cwd, path, cs) {
      FileKeyFoundThroughChild(nodes, cwd, path, s);
    }
    forall s | s in ChildrenPaths(nodes, cwd, path, cs) ensures s in FileKeys(nodes, cwd, path) {
      var c :| c in cs && s in ChildPaths(nodes, cwd, path, c);
      ChildPathIsFileKey(nodes, cwd, path, c, s);
    }
  }

  lemma FileKeyFoundThroughChild(nodes: Tree, cwd: Path, path: string, s: string)
    requires WellFormed(nodes) && IsDirPath(nodes, cwd, path)
    requires s in FileKeys(nodes, cwd, path)
    ensures var q := Resolve(cwd, s); var p := Resolve(cwd, path);
      |q| > |p| && p + [q[|p|]] in nodes && s in ChildPaths(nodes, cwd, path, q[|p|])
  {
    var p := Resolve(cwd, path);
    FileKeyResolves(nodes, cwd, path, s);
    var q := Resolve(cwd, s);
    var c := q[|p|];
    FileUnderChild(nodes, p, q);
    ChildNameValid(nodes, p, c);
    ResolveJoin(cwd, path, c);
    assert q[|p|..] == [c] + q[|p| + 1..];
    UnderCons(path, c, q[|p| + 1..]);
    if |q| == |p| + 1 {
      assert q == p + [c];
      assert [c][..0] == [];
    } else {
      FileHasKey(nodes, cwd, Join(path, c), q);
    }
  }

  lemma ChildPathIsFileKey(nodes: Tree, cwd: Path, path: string, c: string, s: string)
    requires WellFormed(nodes) && IsDirPath(nodes, cwd, path)
    requires Resolve(cwd, path) + [c] in nodes && s in ChildPaths(nodes, cwd, path, c)
    ensures s in FileKeys(nodes, cwd, path)
  {
    var p := Resolve(cwd, path);
    ChildNameValid(nodes, p, c);
    ResolveJoin(cwd, path, c);
    if IsDirectory(nodes, p + [c]) {
      FileBelowChildIsFileKey(nodes, cwd, path, c, s);
    } else {
      FileChildIsFileKey(nodes, cwd, path, c);
    }
  }

  /** A file key of a child directory is a file key of its parent. */
  lemma FileBelowChildIsFileKey(nodes: Tree, cwd: Path, path: string, c: string, s: string)
    requires WellFormed(nodes) && IsDirPath(nodes, cwd, path) && ValidName(c)
    requires Resolve(cwd, Join(path, c)) == Resolve(cwd, path) + [c]
    requires s in FileKeys(nodes, cwd, Join(path, c))
    ensures s in FileKeys(nodes, cwd, path)
  {
    var p := Resolve(cwd, path);
    FileKeyResolves(nodes, cwd, Join(path, c), s);
    var q := Resolve(cwd, s);
    StrictPrefixOfChild(p, c, q);
    UnderCons(path, c, q[|p| + 1..]);
    FileHasKey(nodes, cwd, path, q);
  }

  /** A child that is a file is named by its own path among the parent's file keys. */
  lemma FileChildIsFileKey(nodes: Tree, cwd: Path, path: string, c: string)
    requires WellFormed(nodes) && IsDirPath(nodes, cwd, path) && ValidName(c)
    requires Resolve(cwd, path) + [c] in nodes && !IsDirectory(nodes, Resolve(cwd, path) + [c])
    ensures Join(path, c) in FileKeys(nodes, cwd, path)
  {
    var p := Resolve(cwd, path);
    var here := p + [c];
    assert here[..|p|] == p && here[|p|..] == [c];
    assert here in FilesUnder(nodes, p);
    assert [c][..0] == [];
    FileHasKey(nodes, cwd, path, here);
  }

  /** `_paths_in`: a directory gives every file below it, at any depth, found
      by listing each directory and recursing; anything else (a file, a
      missing path, the empty string) gives just itself. */
  method PathsIn(fs: FileSystem, path: string) returns (arr: seq<string>)
    requires fs.Valid()
    ensures IsDirPath(fs.nodes, fs.cwd, path) ==> Elements(arr) == FileKeys(fs.nodes, fs.cwd, path)
    ensures !IsDirPath(fs.nodes, fs.cwd, path) ==> arr == [path]
    decreases |Descendants(fs.nodes, Resolve(fs.cwd, path))|
  {
    arr := [];
    if IsDirPath(fs.nodes, fs.cwd, path) {
      var p := Resolve(fs.cwd, path);
      var names := ListDir(fs, p);
      for i := 0 to |names|
        invariant Elements(arr) == ChildrenPaths(fs.nodes, fs.cwd, path, Elements(names[..i]))
      {
        var c := names[i];
        ChildNameValid(fs.nodes, p, c);
        ResolveJoin(fs.cwd, path, c);
        ChildHasFewerDescendants(fs.nodes, p, c);
        var subPath := Join(path, c);
        var found := PathsIn(fs, subPath);
        assert Elements(found) == ChildPaths(fs.nodes, fs.cwd, path, c);
        ghost var before := arr;
        arr := arr + found;
        assert Elements(arr) == Elements(before) + Elements(found);
        ElementsTakeOneMore(names, i);
      }
      assert names[..|names|] == names;
      FileKeysByChild(fs.nodes, fs.cwd, path);
    } else {
      arr := arr + [path];
    }
  }

  /** `_paths_in` and `_all_files_in_dir` find the same files in a directory. */
  lemma PathsInIsAllFiles(nodes: Tree, cwd: Path, path: string, arr: seq<string>, files: seq<string>)
    requires IsDirPath(nodes, cwd, path)
    requires Elements(arr) == FileKeys(nodes, cwd, path)
    requires Elements(files) == FileKeys(nodes, cwd, path)
    ensures forall s :: s in arr <==> s in files
  {
    assert forall s :: s in arr <==> s in Elements(arr);
    assert forall s :: s in files <==> s in Elements(files);
  }

  // ---------------------------------------------------------------------------
  // traverse
  // ---------------------------------------------------------------------------

  /** What one traversal depends on: the filesystem, the time and the arguments. */
  datatype Traversal = Traversal(nodes: Tree, cwd: Path, now: int, root: string, threshold: int)

  function RootOf(t: Traversal): Path {
    Resolve(t.cwd, t.root)
  }

  /** The legacy days of the child `c`. */
  ghost function Age(t: Traversal, c: string): int {
    LegacyDays(t.nodes, t.now, RootOf(t) + [c])
  }

  /** The files below a child are expanded when it is old enough and its name
      is not reserved. */
  ghost predicate Expands(t: Traversal, c: string) {
    Age(t, c) >= t.threshold && !IsReservedName(c)
  }

  /** The entry recorded for the child `c` itself. */
  ghost function TraversedRoot(t: Traversal, c: string): ArchivePath {
    NewArchivePath(Join(t.root, c), Age(t, c), Age(t, c) >= t.threshold, true, IsDirectory(t.nodes, RootOf(t) + [c]))
  }

  /** The entry recorded for a file below an expanded child with days `days`. */
  function TraversedSub(s: string, days: int): ArchivePath {
    NewArchivePath(s, days, true, false, false)
  }

  ghost function TraversedOwner(t: Traversal, s: string): string {
    var q := Resolve(t.cwd, s);
    if |q| > |RootOf(t)| then q[|RootOf(t)|] else ""
  }

  ghost function TraversedEntryOf(t: Traversal, s: string): ArchivePath {
    var c := TraversedOwner(t, s);
    if Resolve(t.cwd, s) == RootOf(t) + [c] then TraversedRoot(t, c) else TraversedSub(s, Age(t, c))
  }

  ghost function TraversedKeys(t: Traversal, cs: set<string>): set<string> {
    (set c | c in cs :: Join(t.root, c))
      + (set c, s | c in cs && Expands(t, c) && s in FileKeys(t.nodes, t.cwd, Join(t.root, c)) :: s)
  }

  /** The catalogue `traverse` returns, whatever order the children are listed in. */
  ghost function Traversed(t: Traversal): map<string, ArchivePath> {
    map s | s in TraversedKeys(t, ChildNames(t.nodes, RootOf(t))) :: TraversedEntryOf(t, s)
  }

  lemma TraversedRootKey(t: Traversal, c: string)
    requires ValidName(c)
    ensures Resolve(t.cwd, Join(t.root, c)) == RootOf(t) + [c]
    ensures TraversedOwner(t, Join(t.root, c)) == c
    ensures TraversedEntryOf(t, Join(t.root, c)) == TraversedRoot(t, c)
  {
    ResolveJoin(t.cwd, t.root, c);
    assert (RootOf(t) + [c])[|RootOf(t)|] == c;
  }

  lemma TraversedSubKey(t: Traversal, c: string, s: string)
    requires WellFormed(t.nodes) && ValidName(c)
    requires s in FileKeys(t.nodes, t.cwd, Join(t.root, c))
    ensures Resolve(t.cwd, s) in FilesUnder(t.nodes, RootOf(t) + [c])
    ensures TraversedOwner(t, s) == c
    ensures TraversedEntryOf(t, s) == TraversedSub(s, Age(t, c))
  {
    var here := RootOf(t) + [c];
    ResolveJoin(t.cwd, t.root, c);
    FileKeyResolves(t.nodes, t.cwd, Join(t.root, c), s);
    var q := Resolve(t.cwd, s);
    assert q[..|here|] == here;
    assert q[|RootOf(t)|] == here[|RootOf(t)|];
  }

  /** `paths` holds exactly the entries the children `cs` contribute. */
  ghost predicate TraversedSoFar(t: Traversal, cs: set<string>, paths: map<string, ArchivePath>) {
    && (forall s :: s in paths <==> s in TraversedKeys(t, cs))
    && (forall s :: s in paths ==> paths[s] == TraversedEntryOf(t, s))
  }

  lemma TraversedStep(t: Traversal, cs: set<string>, c: string, paths: map<string, ArchivePath>,
                      subKeys: set<string>, next: map<string, ArchivePath>)
    requires WellFormed(t.nodes) && ValidName(c)
    requires TraversedSoFar(t, cs, paths)
    requires subKeys == if Expands(t, c) then FileKeys(t.nodes, t.cwd, Join(t.root, c)) else {}
    requires forall s :: s in next <==> s in paths || s == Join(t.root, c) || s in subKeys
    requires forall s :: s in next ==>
               next[s] == if s == Join(t.root, c) then TraversedRoot(t, c)
                          else if s in subKeys then TraversedSub(s, Age(t, c))
                          else paths[s]
    ensures TraversedSoFar(t, cs + {c}, next)
  {
    TraversedRootKey(t, c);
    forall s | s in subKeys ensures TraversedEntryOf(t, s) == TraversedSub(s, Age(t, c)) {
      TraversedSubKey(t, c, s);
    }
    TraversedKeysStep(t, cs, c, subKeys);
  }

  /** The keys one more child adds: its own and, when it expands, its files'. */
  lemma TraversedKeysStep(t: Traversal, cs: set<string>, c: string, subKeys: set<string>)
    requires subKeys == if Expands(t, c) then FileKeys(t.nodes, t.cwd, Join(t.root, c)) else {}
    ensures forall s :: s in TraversedKeys(t, cs + {c}) <==> s in TraversedKeys(t, cs) || s == Join(t.root, c) || s in subKeys
  {
    forall s | s in TraversedKeys(t, cs + {c}) ensures s in TraversedKeys(t, cs) || s == Join(t.root, c) || s in subKeys {
      if s !in set c' | c' in cs + {c} :: Join(t.root, c') {
        var c' :| c' in cs + {c} && Expands(t, c') && s in FileKeys(t.nodes, t.cwd, Join(t.root, c'));
      }
    }
    forall s | s in TraversedKeys(t, cs) ensures s in TraversedKeys(t, cs + {c}) {
      if s !in set c' | c' in cs :: Join(t.root, c') {
        var c' :| c' in cs && Expands(t, c') && s in FileKeys(t.nodes, t.cwd, Join(t.root, c'));
      }
    }
  }

  lemma TraversedSoFarIsTraversed(t: Traversal, paths: map<string, ArchivePath>)
    requires TraversedSoFar(t, ChildNames(t.nodes, RootOf(t)), paths)
    ensures paths == Traversed(t)
  {
  }

  /** The sub-path loop of `traverse`: an entry for each path found except the
      child's own. */
  method AddTraversedSubs(paths: map<string, ArchivePath>, key: string, found: seq<string>, days: int)
    returns (out: map<string, ArchivePath>)
    ensures forall s :: s in out <==> s in paths || (s in found && s != key)
    ensures forall s :: s in out ==> out[s] == if s in found && s != key then TraversedSub(s, days) else paths[s]
  {
    out := paths;
    for j := 0 to |found|
      invariant forall s :: s in out <==> s in paths || (s in found[..j] && s != key)
      invariant forall s :: s in out ==> out[s] == if s in found[..j] && s != key then TraversedSub(s, days) else paths[s]
    {
      TakeOneMore(found, j);
      var subKey := found[j];
      if key != subKey {
        out := out[subKey := TraversedSub(subKey, days)];
      }
    }
    assert found[..|found|] == found;
  }

  /** What `_paths_in` finds for a child, less the child itself, is the files
      below it. */
  lemma FoundBelowChild(t: Traversal, c: string, found: seq<string>)
    requires WellFormed(t.nodes) && RootOf(t) + [c] in t.nodes && ValidName(c)
    requires IsDirPath(t.nodes, t.cwd, Join(t.root, c)) ==> Elements(found) == FileKeys(t.nodes, t.cwd, Join(t.root, c))
    requires !IsDirPath(t.nodes, t.cwd, Join(t.root, c)) ==> found == [Join(t.root, c)]
    ensures Elements(found) - {Join(t.root, c)} == FileKeys(t.nodes, t.cwd, Join(t.root, c))
  {
    var key := Join(t.root, c);
    TraversedRootKey(t, c);
    if IsDirPath(t.nodes, t.cwd, key) {
      if key in FileKeys(t.nodes, t.cwd, key) {
        FileKeyResolves(t.nodes, t.cwd, key, key);
      }
    } else {
      NothingInsideFile(t.nodes, RootOf(t) + [c]);
      assert Elements(found) == {key};
    }
  }

  /** `traverse`: a root entry for each child of `rootPath`, written after the
      entries of the files below it when it is old enough and not reserved.
      Listing a missing location or a file raises. */
  method Traverse(fs: FileSystem, now: int, rootPath: string, thresholdDays: int)
    returns (r: Result<map<string, ArchivePath>, FsError>)
    requires fs.Valid()
    ensures r.Err? <==> ListError(fs.nodes, fs.cwd, rootPath).Some?
    ensures r.Err? ==> r.error == ListError(fs.nodes, fs.cwd, rootPath).value
    ensures r.Ok? ==> r.value == Traversed(Traversal(fs.nodes, fs.cwd, now, rootPath, thresholdDays))
  {
    var listing := ListDirAt(fs, rootPath);
    if listing.Err? {
      return Err(listing.error);
    }
    var names := listing.value;
    ghost var t := Traversal(fs.nodes, fs.cwd, now, rootPath, thresholdDays);
    var paths: map<string, ArchivePath> := map[];
    for i := 0 to |names|
      invariant TraversedSoFar(t, Elements(names[..i]), paths)
    {
      var c := names[i];
      ChildNameValid(fs.nodes, RootOf(t), c);
      TraversedRootKey(t, c);
      var key := Join(rootPath, c);
      var days := DaysSinceLastAccess(fs, now, key);
      var shouldArchive := days >= thresholdDays;
      var shouldIgnore := c == ArchiveDirectory || c == ConfigPath;
      ghost var before := paths;
      ghost var subKeys: set<string> := {};
      if shouldArchive && !shouldIgnore {
        var found := PathsIn(fs, key);
        paths := AddTraversedSubs(paths, key, found, days);
        subKeys := Elements(found) - {key};
        FoundBelowChild(t, c, found);
      }
      paths := paths[key := NewArchivePath(key, days, shouldArchive, true, IsDirPath(fs.nodes, fs.cwd, key))];
      TraversedStep(t, Elements(names[..i]), c, before, subKeys, paths);
      ElementsTakeOneMore(names, i);
    }
    assert names[..|names|] == names;
    assert Elements(names) == ChildNames(t.nodes, RootOf(t));
    TraversedSoFarIsTraversed(t, paths);
    return Ok(paths);
  }

  // ---------------------------------------------------------------------------
  // What the traversal holds
  // ---------------------------------------------------------------------------

  /** Every child has a root entry under `root/child`, with its legacy days,
      marked ignored exactly when its name is reserved, and to be archived
      exactly when it is old enough and not reserved. */
  lemma TraversedRootEntry(t: Traversal, c: string)
    requires WellFormed(t.nodes) && RootOf(t) + [c] in t.nodes
    ensures Join(t.root, c) in Traversed(t)
    ensures var e := Traversed(t)[Join(t.root, c)];
      && e.key == Join(t.root, c) && e.isRoot
      && e.daysSinceAccess == LegacyDays(t.nodes, t.now, RootOf(t) + [c])
      && (e.ignored <==> IsReservedName(c))
      && (e.shouldArchive <==> e.daysSinceAccess >= t.threshold && !IsReservedName(c))
      && (e.isDir <==> IsDirectory(t.nodes, RootOf(t) + [c]))
  {
    ChildNameValid(t.nodes, RootOf(t), c);
    TraversedRootKey(t, c);
    var k := Join(t.root, c);
    assert k in TraversedKeys(t, ChildNames(t.nodes, RootOf(t)));
    TraversedLastComponent(t, c);
  }

  /** The last component of a child's key is the child's name. */
  lemma TraversedLastComponent(t: Traversal, c: string)
    requires ValidName(c)
    ensures LastComponent(Join(t.root, c)) == c
  {
    var k := Join(t.root, c);
    assert c[0] in c;
    LastComponentIsSuffix(k, c);
    if t.root != "" {
      assert k[|k| - |c| - 1..] == "/" + c;
    }
  }

  /** Every root entry is the entry of a child. */
  lemma TraversedRootsAreChildren(t: Traversal, k: string)
    requires WellFormed(t.nodes)
    requires k in Traversed(t) && Traversed(t)[k].isRoot
    ensures RootOf(t) + [TraversedOwner(t, k)] in t.nodes && k == Join(t.root, TraversedOwner(t, k))
  {
    var cs := ChildNames(t.nodes, RootOf(t));
    if k in set c | c in cs :: Join(t.root, c) {
      var c :| c in cs && k == Join(t.root, c);
      ChildNameValid(t.nodes, RootOf(t), c);
      TraversedRootKey(t, c);
    } else {
      TraversedSubIsNotRoot(t, k);
    }
  }

  /** A key that is not a child's own is a file below an expanding child, and
      its entry is not a root. */
  lemma TraversedSubIsNotRoot(t: Traversal, k: string)
    requires WellFormed(t.nodes) && k in Traversed(t)
    requires k !in set c | c in ChildNames(t.nodes, RootOf(t)) :: Join(t.root, c)
    ensures RootOf(t) + [TraversedOwner(t, k)] in t.nodes && Expands(t, TraversedOwner(t, k))
    ensures Resolve(t.cwd, k) in FilesUnder(t.nodes, RootOf(t) + [TraversedOwner(t, k)])
    ensures Traversed(t)[k] == TraversedSub(k, Age(t, TraversedOwner(t, k)))
  {
    var cs := ChildNames(t.nodes, RootOf(t));
    var c :| c in cs && Expands(t, c) && k in FileKeys(t.nodes, t.cwd, Join(t.root, c));
    ChildNameValid(t.nodes, RootOf(t), c);
    TraversedSubKey(t, c, k);
  }

  /** A child that expands contributes an entry for each file below it, at any
      depth: not a root, not a directory, with the child's days, and to be
      archived unless the file's own name is reserved. */
  lemma TraversedExpands(t: Traversal, c: string, q: Path)
    requires WellFormed(t.nodes) && RootOf(t) + [c] in t.nodes && Expands(t, c)
    requires q in FilesUnder(t.nodes, RootOf(t) + [c])
    ensures var k := Under(Join(t.root, c), q[|RootOf(t)| + 1..]);
      && Resolve(t.cwd, k) == q
      && k in Traversed(t)
      && !Traversed(t)[k].isRoot && !Traversed(t)[k].isDir
      && Traversed(t)[k].daysSinceAccess == Age(t, c)
      && (Traversed(t)[k].shouldArchive <==> !Traversed(t)[k].ignored)
      && (Traversed(t)[k].ignored <==> EndsWithName(k, ArchiveDirectory) || EndsWithName(k, ConfigPath))
  {
    var top := Join(t.root, c);
    ChildNameValid(t.nodes, RootOf(t), c);
    TraversedRootKey(t, c);
    FileHasKey(t.nodes, t.cwd, top, q);
    var k := Under(top, q[|RootOf(t) + [c]|..]);
    TraversedSubKey(t, c, k);
    var cs := ChildNames(t.nodes, RootOf(t));
    assert k in TraversedKeys(t, cs);
  }

  /** An entry strictly below a child exists only when that child expands
      and is a directory. */
  lemma TraversedNothingBelowUnlessExpands(t: Traversal, c: string, k: string)
    requires WellFormed(t.nodes)
    requires k in Traversed(t) && StrictPrefix(RootOf(t) + [c], Resolve(t.cwd, k))
    ensures Expands(t, c) && IsDirectory(t.nodes, RootOf(t) + [c])
    ensures Resolve(t.cwd, k) in FilesUnder(t.nodes, RootOf(t) + [c])
    ensures Traversed(t)[k] == TraversedSub(k, Age(t, c))
  {
    var cs := ChildNames(t.nodes, RootOf(t));
    var here := RootOf(t) + [c];
    var q := Resolve(t.cwd, k);
    assert q[|RootOf(t)|] == here[|RootOf(t)|];
    if k in set c' | c' in cs :: Join(t.root, c') {
      var c' :| c' in cs && k == Join(t.root, c');
      ChildNameValid(t.nodes, RootOf(t), c');
      TraversedRootKey(t, c');
      assert false;
    }
    var c' :| c' in cs && Expands(t, c') && k in FileKeys(t.nodes, t.cwd, Join(t.root, c'));
    ChildNameValid(t.nodes, RootOf(t), c');
    TraversedSubKey(t, c', k);
    assert c' == c;
    if IsFile(t.nodes, here) {
      NothingInsideFile(t.nodes, here);
    }
  }

  /** Because a directory never reports more than 0 days, with a threshold of
      at least one day the traversal expands no child: it holds root entries
      only, and only files among them are to be archived. */
  lemma TraversalArchivesOnlyFileRoots(t: Traversal, k: string)
    requires WellFormed(t.nodes) && t.threshold >= 1
    requires k in Traversed(t)
    ensures Traversed(t)[k].isRoot
    ensures Traversed(t)[k].shouldArchive ==> !Traversed(t)[k].isDir
  {
    var cs := ChildNames(t.nodes, RootOf(t));
    if k !in set c | c in cs :: Join(t.root, c) {
      NoExpansionAtPositiveThreshold(t, k);
    }
    var c :| c in cs && k == Join(t.root, c);
    TraversedRootEntry(t, c);
    if IsDirectory(t.nodes, RootOf(t) + [c]) {
      DirectoryNeverQualifies(t.nodes, t.now, RootOf(t) + [c], t.threshold);
    }
  }

  lemma NoExpansionAtPositiveThreshold(t: Traversal, k: string)
    requires WellFormed(t.nodes) && t.threshold >= 1
    requires k in Traversed(t)
    ensures k in set c | c in ChildNames(t.nodes, RootOf(t)) :: Join(t.root, c)
  {
    if k !in set c | c in ChildNames(t.nodes, RootOf(t)) :: Join(t.root, c) {
      TraversedSubIsNotRoot(t, k);
      var c := TraversedOwner(t, k);
      HoldingFileIsDirectory(t.nodes, RootOf(t) + [c], Resolve(t.cwd, k));
      DirectoryNeverQualifies(t.nodes, t.now, RootOf(t) + [c], t.threshold);
      assert false;
    }
  }
}
