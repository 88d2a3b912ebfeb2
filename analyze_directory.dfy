/** The staleness scan of the modular archiver: list the children of a root
    directory, measure how long each has gone unaccessed, decide which are to
    be archived, and expand each archivable child into one entry per file
    below it. The result is a catalogue keyed by path string. */
module AnalyzeDirectory {
  import opened Wrappers
  import opened Paths
  import opened Disk
  import opened Listings
  import opened Staleness
  import opened ArchivePaths

  // ---------------------------------------------------------------------------
  // Staleness of one path
  // ---------------------------------------------------------------------------

  /** `_days_stale_of_file`: whole days since the file at `path` was last
      accessed, at time `now`. */
  function DaysStaleOfFile(fs: FileSystem, now: int, path: string): (days: int)
    reads fs
    requires IsFile(fs.nodes, Resolve(fs.cwd, path))
    ensures days * SecondsPerDay <= now - fs.nodes[Resolve(fs.cwd, path)].atime < (days + 1) * SecondsPerDay
  {
    FileDays(now, fs.nodes[Resolve(fs.cwd, path)].atime)
  }

  /** The staleness reported for a path string. Walking the empty string finds
      no file, so it counts as an empty directory. */
  ghost function PathStaleness(nodes: Tree, cwd: Path, now: int, path: string): int {
    if path == "" then 0 else StaleDays(nodes, now, Resolve(cwd, path))
  }

  /** The days of the file a key names (0 for a key naming no file). */
  ghost function KeyDays(nodes: Tree, cwd: Path, now: int, s: string): int {
    var q := Resolve(cwd, s);
    if IsFile(nodes, q) then FileDays(now, nodes[q].atime) else 0
  }

  /** The days of each key in turn. */
  ghost function DaysOfKeys(nodes: Tree, cwd: Path, now: int, files: seq<string>): (ds: seq<int>)
    ensures |ds| == |files|
  {
    if files == [] then []
    else DaysOfKeys(nodes, cwd, now, files[..|files| - 1]) + [KeyDays(nodes, cwd, now, files[|files| - 1])]
  }

  lemma {:induction false} DaysOfKeysAt(nodes: Tree, cwd: Path, now: int, files: seq<string>, i: nat)
    requires i < |files|
    ensures DaysOfKeys(nodes, cwd, now, files)[i] == KeyDays(nodes, cwd, now, files[i])
  {
    if i < |files| - 1 {
      DaysOfKeysAt(nodes, cwd, now, files[..|files| - 1], i);
    }
  }

  /** The smallest day count over the keys of exactly the files below `path`,
      or 0 when there are none, is the directory's staleness. */
  lemma MinimumOverKeys(nodes: Tree, cwd: Path, now: int, path: string, files: seq<string>, r: int)
    requires WellFormed(nodes) && path != "" && Elements(files) == FileKeys(nodes, cwd, path)
    requires |files| == 0 ==> r == 0
    requires |files| > 0 ==> exists m :: 0 <= m < |files| && r == DaysOfKeys(nodes, cwd, now, files)[m]
    requires forall m :: 0 <= m < |files| ==> r <= DaysOfKeys(nodes, cwd, now, files)[m]
    ensures r == DirectoryDays(nodes, now, Resolve(cwd, path))
  {
    KeysNameFiles(nodes, cwd, path, files);
    var p := Resolve(cwd, path);
    forall q | q in FilesUnder(nodes, p) ensures r <= FileDays(now, nodes[q].atime) {
      var m :| 0 <= m < |files| && Resolve(cwd, files[m]) == q;
      DaysOfKeysAt(nodes, cwd, now, files, m);
    }
    if |files| > 0 {
      var m :| 0 <= m < |files| && r == DaysOfKeys(nodes, cwd, now, files)[m];
      DaysOfKeysAt(nodes, cwd, now, files, m);
      assert Resolve(cwd, files[m]) in FilesUnder(nodes, p);
    }
    DirectoryDaysCharacterized(nodes, now, p, r);
  }

  /** `_days_stale_of_directory`: the running minimum of the days of every file
      below `path`, 0 when there is none. */
  method DaysStaleOfDirectory(fs: FileSystem, now: int, path: string) returns (days: int)
    requires fs.Valid()
    ensures days == if path == "" then 0 else DirectoryDays(fs.nodes, now, Resolve(fs.cwd, path))
  {
    var files := AllFilesInDir(fs, path);
    ghost var nodes, cwd := fs.nodes, fs.cwd;
    KeysAreFiles(nodes, cwd, path, files);
    ghost var ds := DaysOfKeys(nodes, cwd, now, files);
    var latest: Option<int> := None;
    for i := 0 to |files|
      invariant latest.None? <==> i == 0
      invariant latest.Some? ==> exists m :: 0 <= m < i && latest.value == ds[m]
      invariant latest.Some? ==> forall m :: 0 <= m < i ==> latest.value <= ds[m]
    {
      var d := DaysStaleOfFile(fs, now, files[i]);
      DaysOfKeysAt(nodes, cwd, now, files, i);
      if latest.None? || d < latest.value {
        latest := Some(d);
      }
    }
    days := if latest.Some? then latest.value else 0;
    assert path != "" ==> days == DirectoryDays(nodes, now, Resolve(cwd, path)) by {
      if path != "" {
        MinimumOverKeys(nodes, cwd, now, path, files, days);
      }
    }
  }

  /** `_days_stale`: a file's own days, otherwise the directory rule. */
  method DaysStale(fs: FileSystem, now: int, path: string) returns (days: int)
    requires fs.Valid()
    ensures days == PathStaleness(fs.nodes, fs.cwd, now, path)
  {
    if IsFilePath(fs.nodes, fs.cwd, path) {
      days := DaysStaleOfFile(fs, now, path);
    } else {
      days := DaysStaleOfDirectory(fs, now, path);
    }
  }

  // ---------------------------------------------------------------------------
  // The catalogue
  // ---------------------------------------------------------------------------

  /** What one scan depends on: the filesystem, the time, and the arguments of
      `analyze_directory`. */
  datatype Scan = Scan(nodes: Tree, cwd: Path, now: int, root: string, ignore: seq<string>, threshold: int)

  /** The directory being scanned. */
  function Location(sc: Scan): Path {
    Resolve(sc.cwd, sc.root)
  }

  /** The staleness of the child `c` of the scanned directory. */
  ghost function ChildDays(sc: Scan, c: string): int {
    StaleDays(sc.nodes, sc.now, Location(sc) + [c])
  }

  /** A child is archived when it is stale enough and its name is not ignored. */
  ghost predicate Archivable(sc: Scan, c: string) {
    ChildDays(sc, c) >= sc.threshold && c !in sc.ignore
  }

  /** The entry recorded for the child `c` itself. */
  ghost function RootEntry(sc: Scan, c: string): ArchivePath {
    ArchivePath(Join(sc.root, c), ChildDays(sc, c), Archivable(sc, c), true,
                IsDirectory(sc.nodes, Location(sc) + [c]), c in sc.ignore)
  }

  /** The entry recorded for a file below an archived child. */
  function SubEntry(s: string, days: int): ArchivePath {
    ArchivePath(s, days, true, false, false, false)
  }

  /** The child of the scanned directory that a key lies in or names. */
  ghost function Owner(sc: Scan, s: string): string {
    var q := Resolve(sc.cwd, s);
    if |q| > |Location(sc)| then q[|Location(sc)|] else ""
  }

  /** The entry a catalogue key carries: the root entry of the child it names,
      or a sub-entry with the days of the child it lies in. */
  ghost function EntryOf(sc: Scan, s: string): ArchivePath {
    var c := Owner(sc, s);
    if Resolve(sc.cwd, s) == Location(sc) + [c] then RootEntry(sc, c) else SubEntry(s, ChildDays(sc, c))
  }

  /** The keys of the children `cs`. */
  ghost function RootKeys(sc: Scan, cs: set<string>): set<string> {
    set c | c in cs :: Join(sc.root, c)
  }

  /** The keys of the files below the archivable children among `cs`. */
  ghost function SubKeys(sc: Scan, cs: set<string>): set<string> {
    set c, s | c in cs && Archivable(sc, c) && s in FileKeys(sc.nodes, sc.cwd, Join(sc.root, c)) :: s
  }

  /** The catalogue entries contributed by the children `cs`. */
  ghost function CatalogueOf(sc: Scan, cs: set<string>): map<string, ArchivePath> {
    map s | s in RootKeys(sc, cs) + SubKeys(sc, cs) :: EntryOf(sc, s)
  }

  /** The catalogue `analyze_directory` returns, whatever order the children
      are listed in. */
  ghost function Catalogue(sc: Scan): map<string, ArchivePath> {
    CatalogueOf(sc, ChildNames(sc.nodes, Location(sc)))
  }

  /** The key of a child names it, and carries its root entry. */
  lemma RootKeyEntry(sc: Scan, c: string)
    requires ValidName(c)
    ensures Resolve(sc.cwd, Join(sc.root, c)) == Location(sc) + [c]
    ensures Owner(sc, Join(sc.root, c)) == c
    ensures EntryOf(sc, Join(sc.root, c)) == RootEntry(sc, c)
  {
    ResolveJoin(sc.cwd, sc.root, c);
    assert (Location(sc) + [c])[|Location(sc)|] == c;
  }

  /** A file key of a child names a file below it, and carries a sub-entry with
      the child's days. */
  lemma SubKeyEntry(sc: Scan, c: string, s: string)
    requires WellFormed(sc.nodes) && ValidName(c)
    requires s in FileKeys(sc.nodes, sc.cwd, Join(sc.root, c))
    ensures Resolve(sc.cwd, s) in FilesUnder(sc.nodes, Location(sc) + [c])
    ensures Owner(sc, s) == c
    ensures EntryOf(sc, s) == SubEntry(s, ChildDays(sc, c))
  {
    var here := Location(sc) + [c];
    ResolveJoin(sc.cwd, sc.root, c);
    FileKeyResolves(sc.nodes, sc.cwd, Join(sc.root, c), s);
    var q := Resolve(sc.cwd, s);
    assert q[..|here|] == here;
    assert q[|Location(sc)|] == here[|Location(sc)|];
  }

  /** `paths` holds exactly the entries the children `cs` contribute. */
  ghost predicate Agrees(sc: Scan, cs: set<string>, paths: map<string, ArchivePath>) {
    && (forall s :: s in paths <==> s in RootKeys(sc, cs) || s in SubKeys(sc, cs))
    && (forall s :: s in paths ==> paths[s] == EntryOf(sc, s))
  }

  /** Entries that agree with the children `cs` are their catalogue. */
  lemma AgreesIsCatalogue(sc: Scan, cs: set<string>, paths: map<string, ArchivePath>)
    requires Agrees(sc, cs, paths)
    ensures paths == CatalogueOf(sc, cs)
  {
  }

  /** Recording one more child, then its files when it is archivable, adds
      exactly its contribution. */
  lemma AgreesStep(sc: Scan, cs: set<string>, c: string, paths: map<string, ArchivePath>,
                   subKeys: set<string>, next: map<string, ArchivePath>)
    requires WellFormed(sc.nodes) && ValidName(c)
    requires Agrees(sc, cs, paths)
    requires subKeys == if Archivable(sc, c) then FileKeys(sc.nodes, sc.cwd, Join(sc.root, c)) else {}
    requires forall s :: s in next <==> s in paths || s == Join(sc.root, c) || s in subKeys
    requires forall s :: s in next ==>
               next[s] == if s in subKeys then SubEntry(s, ChildDays(sc, c))
                          else if s == Join(sc.root, c) then RootEntry(sc, c)
                          else paths[s]
    ensures Agrees(sc, cs + {c}, next)
  {
    RootKeyEntry(sc, c);
    forall s | s in subKeys ensures EntryOf(sc, s) == SubEntry(s, ChildDays(sc, c)) && s in SubKeys(sc, cs + {c}) {
      SubKeyEntry(sc, c, s);
    }
    SubKeysStep(sc, cs, c, subKeys);
    RootKeysStep(sc, cs, c);
  }

  lemma RootKeysStep(sc: Scan, cs: set<string>, c: string)
    ensures RootKeys(sc, cs + {c}) == RootKeys(sc, cs) + {Join(sc.root, c)}
  {
  }

  /** The file keys one more child adds: its files' when it is archivable. */
  lemma SubKeysStep(sc: Scan, cs: set<string>, c: string, subKeys: set<string>)
    requires subKeys == if Archivable(sc, c) then FileKeys(sc.nodes, sc.cwd, Join(sc.root, c)) else {}
    ensures forall s :: s in SubKeys(sc, cs + {c}) ==> s in SubKeys(sc, cs) || s in subKeys
    ensures forall s :: s in SubKeys(sc, cs) ==> s in SubKeys(sc, cs + {c})
  {
    forall s | s in SubKeys(sc, cs + {c}) ensures s in SubKeys(sc, cs) || s in subKeys {
      var c' :| c' in cs + {c} && Archivable(sc, c') && s in FileKeys(sc.nodes, sc.cwd, Join(sc.root, c'));
    }
    forall s | s in SubKeys(sc, cs) ensures s in SubKeys(sc, cs + {c}) {
      var c' :| c' in cs && Archivable(sc, c') && s in FileKeys(sc.nodes, sc.cwd, Join(sc.root, c'));
    }
  }

  /** Add a sub-entry with `days` for each of `files`, in order. */
  method AddSubEntries(paths: map<string, ArchivePath>, files: seq<string>, days: int)
    returns (out: map<string, ArchivePath>)
    ensures forall s :: s in out <==> s in paths || s in files
    ensures forall s :: s in out ==> out[s] == if s in files then SubEntry(s, days) else paths[s]
  {
    out := paths;
    for j := 0 to |files|
      invariant forall s :: s in out <==> s in paths || s in files[..j]
      invariant forall s :: s in out ==> out[s] == if s in files[..j] then SubEntry(s, days) else paths[s]
    {
      TakeOneMore(files, j);
      out := out[files[j] := SubEntry(files[j], days)];
    }
    assert files[..|files|] == files;
  }

  /** `analyze_directory`: one root entry per child of `rootPath`, and one
      sub-entry per file below each archivable child. Listing a missing
      location or a file raises. */
  method Analyze(fs: FileSystem, now: int, rootPath: string, ignorePaths: seq<string>, thresholdDays: int)
    returns (r: Result<map<string, ArchivePath>, FsError>)
    requires fs.Valid()
    ensures r.Err? <==> ListError(fs.nodes, fs.cwd, rootPath).Some?
    ensures r.Err? ==> r.error == ListError(fs.nodes, fs.cwd, rootPath).value
    ensures r.Ok? ==> r.value == Catalogue(Scan(fs.nodes, fs.cwd, now, rootPath, ignorePaths, thresholdDays))
  {
    var listing := ListDirAt(fs, rootPath);
    if listing.Err? {
      return Err(listing.error);
    }
    var names := listing.value;
    ghost var sc := Scan(fs.nodes, fs.cwd, now, rootPath, ignorePaths, thresholdDays);
    var paths: map<string, ArchivePath> := map[];
    for i := 0 to |names|
      invariant Agrees(sc, Elements(names[..i]), paths)
    {
      var c := names[i];
      ChildNameValid(fs.nodes, Location(sc), c);
      RootKeyEntry(sc, c);
      var key := Join(rootPath, c);
      var days := DaysStale(fs, now, key);
      var shouldIgnore := c in ignorePaths;
      var shouldArchive := days >= thresholdDays && !shouldIgnore;
      ghost var before := paths;
      paths := paths[key := ArchivePath(key, days, shouldArchive, true, IsDirPath(fs.nodes, fs.cwd, key), shouldIgnore)];
      ghost var subKeys: set<string> := {};
      if shouldArchive {
        var files := AllFilesInDir(fs, key);
        paths := AddSubEntries(paths, files, days);
        subKeys := Elements(files);
      }
      AgreesStep(sc, Elements(names[..i]), c, before, subKeys, paths);
      ElementsTakeOneMore(names, i);
    }
    assert names[..|names|] == names;
    assert Elements(names) == ChildNames(sc.nodes, Location(sc));
    AgreesIsCatalogue(sc, Elements(names), paths);
    return Ok(paths);
  }

  // ---------------------------------------------------------------------------
  // What the catalogue holds
  // ---------------------------------------------------------------------------

  /** Distinct children have distinct keys. */
  lemma ChildKeysDistinct(sc: Scan, c: string, c': string)
    requires ValidName(c) && ValidName(c') && c != c'
    ensures Join(sc.root, c) != Join(sc.root, c')
  {
    RootKeyEntry(sc, c);
    RootKeyEntry(sc, c');
  }

  /** Every child has a root entry under `root/child`: its days are the child's
      staleness, it is to be archived exactly when those days reach the
      threshold and its name is not ignored, and it is marked ignored exactly
      when its name is in the ignore list. */
  lemma ChildRootEntry(sc: Scan, c: string)
    requires WellFormed(sc.nodes) && Location(sc) + [c] in sc.nodes
    ensures Join(sc.root, c) in Catalogue(sc)
    ensures var e := Catalogue(sc)[Join(sc.root, c)];
      && e.key == Join(sc.root, c) && e.isRoot
      && e.daysSinceAccess == StaleDays(sc.nodes, sc.now, Location(sc) + [c])
      && (e.shouldArchive <==> e.daysSinceAccess >= sc.threshold && c !in sc.ignore)
      && (e.ignored <==> c in sc.ignore)
      && (e.isDir <==> IsDirectory(sc.nodes, Location(sc) + [c]))
  {
    ChildNameValid(sc.nodes, Location(sc), c);
    RootKeyEntry(sc, c);
    assert Join(sc.root, c) in RootKeys(sc, ChildNames(sc.nodes, Location(sc)));
  }

  /** Every root entry is the entry of a child: together with the two lemmas
      above, there is exactly one root entry per child. */
  lemma RootEntriesAreChildren(sc: Scan, k: string)
    requires WellFormed(sc.nodes)
    requires k in Catalogue(sc) && Catalogue(sc)[k].isRoot
    ensures Location(sc) + [Owner(sc, k)] in sc.nodes && k == Join(sc.root, Owner(sc, k))
  {
    var cs := ChildNames(sc.nodes, Location(sc));
    if k in SubKeys(sc, cs) {
      var c :| c in cs && Archivable(sc, c) && k in FileKeys(sc.nodes, sc.cwd, Join(sc.root, c));
      ChildNameValid(sc.nodes, Location(sc), c);
      SubKeyEntry(sc, c, k);
      RootKeyEntry(sc, c);
    }
    var c :| c in cs && k == Join(sc.root, c);
    ChildNameValid(sc.nodes, Location(sc), c);
    RootKeyEntry(sc, c);
  }

  /** An archivable child expands into one entry per file below it, at any
      depth: keyed by the path the walk builds, not a root, not a directory,
      not ignored, to be archived, with the child's day count. */
  lemma ArchivableChildExpands(sc: Scan, c: string, q: Path)
    requires WellFormed(sc.nodes) && Location(sc) + [c] in sc.nodes && Archivable(sc, c)
    requires q in FilesUnder(sc.nodes, Location(sc) + [c])
    ensures var k := Under(Join(sc.root, c), q[|Location(sc)| + 1..]);
      && Resolve(sc.cwd, k) == q
      && k in Catalogue(sc)
      && Catalogue(sc)[k] == ArchivePath(k, ChildDays(sc, c), true, false, false, false)
      && Catalogue(sc)[k].daysSinceAccess == Catalogue(sc)[Join(sc.root, c)].daysSinceAccess
  {
    var top := Join(sc.root, c);
    ChildNameValid(sc.nodes, Location(sc), c);
    RootKeyEntry(sc, c);
    FileHasKey(sc.nodes, sc.cwd, top, q);
    var k := Under(top, q[|Location(sc) + [c]|..]);
    SubKeyEntry(sc, c, k);
    var cs := ChildNames(sc.nodes, Location(sc));
    assert k in SubKeys(sc, cs);
    assert top in RootKeys(sc, cs);
  }

  /** An entry strictly below a child exists only when that child is
      archivable and is a directory: a child kept or ignored, and a child that
      is a file, contribute nothing but their own root entry. Every entry below
      is a to-be-archived sub-entry with the child's days. */
  lemma NothingBelowUnlessArchivable(sc: Scan, c: string, k: string)
    requires WellFormed(sc.nodes)
    requires k in Catalogue(sc) && StrictPrefix(Location(sc) + [c], Resolve(sc.cwd, k))
    ensures Archivable(sc, c) && IsDirectory(sc.nodes, Location(sc) + [c])
    ensures Resolve(sc.cwd, k) in FilesUnder(sc.nodes, Location(sc) + [c])
    ensures Catalogue(sc)[k] == SubEntry(k, ChildDays(sc, c))
  {
    var cs := ChildNames(sc.nodes, Location(sc));
    var here := Location(sc) + [c];
    var q := Resolve(sc.cwd, k);
    assert q[|Location(sc)|] == here[|Location(sc)|];
    if k in RootKeys(sc, cs) {
      var c' :| c' in cs && k == Join(sc.root, c');
      ChildNameValid(sc.nodes, Location(sc), c');
      RootKeyEntry(sc, c');
      assert false;
    }
    var c' :| c' in cs && Archivable(sc, c') && k in FileKeys(sc.nodes, sc.cwd, Join(sc.root, c'));
    ChildNameValid(sc.nodes, Location(sc), c');
    SubKeyEntry(sc, c', k);
    assert c' == c;
    if IsFile(sc.nodes, here) {
      NothingInsideFile(sc.nodes, here);
    }
  }

  /** Freshness dominance: one file below a child accessed fewer than
      `threshold` days ago keeps the child's root entry from being archived,
      and with it everything below the child. */
  lemma FreshFileBlocksArchive(sc: Scan, c: string, q: Path)
    requires WellFormed(sc.nodes) && Location(sc) + [c] in sc.nodes
    requires q in FilesUnder(sc.nodes, Location(sc) + [c])
    requires FileDays(sc.now, sc.nodes[q].atime) < sc.threshold
    ensures !Catalogue(sc)[Join(sc.root, c)].shouldArchive
    ensures forall k :: k in Catalogue(sc) ==> !StrictPrefix(Location(sc) + [c], Resolve(sc.cwd, k))
  {
    ChildRootEntry(sc, c);
    if IsFile(sc.nodes, Location(sc) + [c]) {
      NothingInsideFile(sc.nodes, Location(sc) + [c]);
    }
    FreshFileKeepsDirectoryFresh(sc.nodes, sc.now, Location(sc) + [c], q, sc.threshold);
    forall k | k in Catalogue(sc) ensures !StrictPrefix(Location(sc) + [c], Resolve(sc.cwd, k)) {
      if StrictPrefix(Location(sc) + [c], Resolve(sc.cwd, k)) {
        NothingBelowUnlessArchivable(sc, c, k);
      }
    }
  }
}
