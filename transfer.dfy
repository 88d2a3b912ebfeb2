/** Moving the files a catalogue marks for archiving into the staging
    directory `<archive_dir>/.archive`, each under the partition of its last
    access (`.archive/2024/03/docs/a.txt`).

    A transfer is described against the filesystem as it was before it, as a
    batch of independent moves (module `Moves`): each eligible file leaves its
    place and appears at its destination, directories on the way are created,
    and nothing else changes. */
module ArchiveTransfer {
  import opened Paths
  import opened Disk
  import opened Listings
  import opened ArchivePaths
  import opened ArchiveKeys
  import opened Moves

  /** `os.path.join(archive_dir, ARCHIVE_DIRECTORY)`. */
  function StagingPath(archiveDir: string): string {
    Join(archiveDir, ArchiveDirectory)
  }

  /** The staging path is never empty, ends with a name, and resolves to the
      reserved directory inside `archive_dir`. */
  lemma StagingPathShape(cwd: Path, archiveDir: string)
    ensures StagingPath(archiveDir) != "" && StagingPath(archiveDir)[|StagingPath(archiveDir)| - 1] != '/'
    ensures Resolve(cwd, StagingPath(archiveDir)) == Resolve(cwd, archiveDir) + [ArchiveDirectory]
  {
    ResolveJoin(cwd, archiveDir, ArchiveDirectory);
  }

  /** An entry that the transfer moves: marked for archiving and not a directory. */
  predicate Eligible(e: ArchivePath) {
    e.shouldArchive && !e.isDir
  }

  function EligibleKeys(paths: map<string, ArchivePath>): set<string> {
    set k | k in paths && Eligible(paths[k])
  }

  /** The record reported for a file staged under `partition` in the staging
      directory `archivePath`: the archive key `partition/key` and the path it
      now lies at. */
  function ItemFor(archivePath: string, partition: string, key: string): ArchiveKey {
    ArchiveKey(Join(partition, key), Join(archivePath, Join(partition, key)))
  }

  /** What a transfer starts from: the filesystem before it, the working
      directory, the directory the staging directory goes in, and the catalogue. */
  datatype Plan = Plan(o: Tree, cwd: Path, archiveDir: string, paths: map<string, ArchivePath>)

  /** Where the staging path resolves (see `StagingPathShape`). */
  ghost function Staging(pl: Plan): Path {
    Resolve(pl.cwd, pl.archiveDir) + [ArchiveDirectory]
  }

  /** Where a plain relative key resolves (see `CanonicalResolve`). */
  ghost function Src(pl: Plan, k: string): Path {
    pl.cwd + Split(k)
  }

  /** Where a file with these access dates goes: its partition and then its own path. */
  ghost function DestFor(staging: Path, node: Node, k: string): Path
    requires node.File?
  {
    staging + PartitionNames(node.year, node.month) + Split(k)
  }

  /** Where the file of entry `k` goes (a missing file goes nowhere in particular). */
  ghost function Dest(pl: Plan, k: string): Path {
    if IsFile(pl.o, Src(pl, k)) then DestFor(Staging(pl), pl.o[Src(pl, k)], k) else Staging(pl) + Split(k)
  }

  /** The moves the transfer makes: one per eligible entry. */
  ghost function MovesOf(pl: Plan): Batch {
    map k | k in EligibleKeys(pl.paths) :: Move(Src(pl, k), Dest(pl, k))
  }

  /** The record reported for entry `k`. */
  ghost function PlannedItem(pl: Plan, k: string): ArchiveKey
    requires IsFile(pl.o, Src(pl, k))
  {
    var node := pl.o[Src(pl, k)];
    ItemFor(StagingPath(pl.archiveDir), PartitionKey(node.year, node.month), k)
  }

  /** The record reported for each eligible entry that names a file. */
  ghost function Records(pl: Plan): map<string, ArchiveKey> {
    map k | k in EligibleKeys(pl.paths) && IsFile(pl.o, Src(pl, k)) :: PlannedItem(pl, k)
  }

  /** The records of the whole transfer. */
  ghost function Planned(pl: Plan): set<ArchiveKey> {
    ValuesAt(Records(pl), pl.paths.Keys)
  }

  /** The values of `m` at the keys in `done`. */
  ghost function ValuesAt<K, V>(m: map<K, V>, done: set<K>): set<V> {
    set k | k in m && k in done :: m[k]
  }

  ghost predicate Injective<K, V>(m: map<K, V>) {
    forall k1, k2 :: k1 in m && k2 in m && m[k1] == m[k2] ==> k1 == k2
  }

  /** Entry `k` names a file by a plain relative path. */
  ghost predicate Moveable(pl: Plan, k: string) {
    Canonical(k) && IsFile(pl.o, Src(pl, k))
  }

  /** Moving entry `k` cannot fail: its key is a plain relative path naming a
      file outside the staging directory, no file blocks the way to its
      destination, and the destination is not a directory. */
  ghost predicate SafeToMove(pl: Plan, k: string) {
    && Moveable(pl, k)
    && !IsPrefix(Staging(pl), Src(pl, k))
    && Clear(pl.o, Staging(pl), Dest(pl, k))
    && !IsDirectory(pl.o, Dest(pl, k))
  }

  /** `os.makedirs` of the staging path succeeds and creates nothing but the
      way to the staging directory: each location the staging path passes
      through is a directory already, or is missing and on the way to the
      staging directory. */
  ghost predicate StagingWay(pl: Plan) {
    forall q :: q in VisitedBy(pl.cwd, StagingPath(pl.archiveDir)) ==>
      IsDirectory(pl.o, q) || (q !in pl.o && IsPrefix(q, Staging(pl)))
  }

  /** What the transfer needs from its caller: entries keyed by their own key,
      a staging path `os.makedirs` can create, and every eligible entry safe
      to move. */
  ghost predicate Transferable(pl: Plan) {
    && WellFormed(pl.o) && IsDirectory(pl.o, pl.cwd)
    && (forall k :: k in pl.paths ==> pl.paths[k].key == k)
    && StagingWay(pl)
    && (forall k :: k in EligibleKeys(pl.paths) ==> SafeToMove(pl, k))
  }

  /** When the staging path can be created, no file stands on the way to the
      staging directory. */
  lemma StagingReachable(pl: Plan)
    requires WellFormed(pl.o) && IsDirectory(pl.o, pl.cwd) && StagingWay(pl)
    ensures Reachable(pl.o, Staging(pl))
  {
    var sp := StagingPath(pl.archiveDir);
    var base := StartOf(pl.cwd, sp);
    var staging := Staging(pl);
    StagingPathShape(pl.cwd, pl.archiveDir);
    assert base[..|base|] == base;
    forall i | 0 <= i <= |staging| && staging[..i] in pl.o
      ensures pl.o[staging[..i]].Directory?
    {
      VisitedPrefixClosed(base, Split(sp), staging, i);
      if staging[..i] !in VisitedBy(pl.cwd, sp) {
        AncestorIsDirectory(pl.o, base, i);
      }
    }
  }

  /** The filesystem once every entry of the catalogue has been handled. */
  ghost predicate Transferred(pl: Plan, nodes: Tree) {
    MovedSoFar(pl.o, Staging(pl), MovesOf(pl), pl.paths.Keys, nodes)
  }

  // ---------------------------------------------------------------------------
  // Where files go
  // ---------------------------------------------------------------------------

  /** An eligible file lands strictly inside the staging directory, two
      partition levels and then its own components down. */
  lemma SourceAndDest(pl: Plan, k: string)
    requires Moveable(pl, k)
    ensures Dest(pl, k) == Staging(pl) + PartitionNames(pl.o[Src(pl, k)].year, pl.o[Src(pl, k)].month) + Split(k)
    ensures StrictPrefix(Staging(pl), Dest(pl, k))
  {
    var node := pl.o[Src(pl, k)];
    StrictPrefixConcat(Staging(pl), PartitionNames(node.year, node.month), Split(k));
  }

  /** Two paths with a common head and middle parts of the same length, one a
      prefix of the other: the middle parts agree and the tails are prefixes. */
  lemma SameHead(a: Path, p1: Path, s1: Path, p2: Path, s2: Path)
    requires |p1| == |p2| && IsPrefix(a + p1 + s1, a + p2 + s2)
    ensures p1 == p2 && IsPrefix(s1, s2)
  {
    var d1 := a + p1 + s1;
    var d2 := a + p2 + s2;
    assert p1 == d1[|a|..|a| + |p1|] == d2[|a|..|a| + |p1|] == p2;
    assert s1 == d1[|a| + |p1|..] == d2[|a| + |p1|..|d1|] == s2[..|s1|];
  }

  /** Of two canonical keys naming files, neither continues the other: a
      longer key would name something inside a file. */
  lemma KeysNotNested(o: Tree, cwd: Path, k1: string, k2: string)
    requires WellFormed(o) && Canonical(k1) && Canonical(k2)
    requires IsFile(o, cwd + Split(k1)) && cwd + Split(k2) in o
    requires IsPrefix(Split(k1), Split(k2))
    ensures k1 == k2
  {
    var s1 := Split(k1);
    var s2 := Split(k2);
    if |s1| < |s2| {
      AncestorIsDirectory(o, cwd + s2, |cwd| + |s1|);
      PrefixBelow(cwd, s1, s2);
    } else {
      assert s1 == s2;
      CanonicalResolve(cwd, k1);
      CanonicalResolve(cwd, k2);
    }
  }

  lemma PrefixBelow(a: Path, s1: Path, s2: Path)
    requires IsPrefix(s1, s2)
    ensures (a + s2)[..|a| + |s1|] == a + s1
  {
  }

  /** Two eligible entries never go to the same place, and neither goes inside
      the other's destination. */
  lemma DestsApart(pl: Plan, k1: string, k2: string)
    requires WellFormed(pl.o) && Moveable(pl, k1) && Moveable(pl, k2)
    requires IsPrefix(Dest(pl, k1), Dest(pl, k2))
    ensures k1 == k2
  {
    SourceAndDest(pl, k1);
    SourceAndDest(pl, k2);
    var n1 := pl.o[Src(pl, k1)];
    var n2 := pl.o[Src(pl, k2)];
    SameHead(Staging(pl), PartitionNames(n1.year, n1.month), Split(k1), PartitionNames(n2.year, n2.month), Split(k2));
    KeysNotNested(pl.o, pl.cwd, k1, k2);
  }

  /** Distinct keys are distinct files. */
  lemma SourcesApart(pl: Plan, k1: string, k2: string)
    requires Canonical(k1) && Canonical(k2)
    requires Src(pl, k1) == Src(pl, k2)
    ensures k1 == k2
  {
    CanonicalResolve(pl.cwd, k1);
    CanonicalResolve(pl.cwd, k2);
    assert Split(k1) == Src(pl, k1)[|pl.cwd|..] == Split(k2);
  }

  /** A catalogue the transfer can handle gives a batch of independent moves. */
  lemma PlanIndependent(pl: Plan)
    requires Transferable(pl)
    ensures Independent(pl.o, Staging(pl), MovesOf(pl))
  {
    var batch := MovesOf(pl);
    StagingReachable(pl);
    forall k | k in batch ensures StrictPrefix(Staging(pl), batch[k].dst) {
      SourceAndDest(pl, k);
    }
    forall k1, k2 | k1 in batch && k2 in batch && IsPrefix(batch[k1].dst, batch[k2].dst) ensures k1 == k2 {
      DestsApart(pl, k1, k2);
    }
    forall k1, k2 | k1 in batch && k2 in batch && batch[k1].src == batch[k2].src ensures k1 == k2 {
      SourcesApart(pl, k1, k2);
    }
  }

  /** The record of an eligible entry names its destination: its key is the
      partition followed by the entry's key, a plain relative path whose
      components lead from the staging directory to the file, and its path is
      the staging path joined with that key. */
  lemma PlannedItemLands(pl: Plan, k: string)
    requires Moveable(pl, k)
    ensures Canonical(PlannedItem(pl, k).key)
    ensures Staging(pl) + Split(PlannedItem(pl, k).key) == Dest(pl, k)
    ensures PlannedItem(pl, k).path == Join(StagingPath(pl.archiveDir), PlannedItem(pl, k).key)
  {
    ItemLands(Staging(pl), StagingPath(pl.archiveDir), pl.o[Src(pl, k)], k);
  }

  /** The record of a file with these access dates names the partition and
      the key, and its path is the staging path joined with that name. */
  lemma ItemLands(staging: Path, archivePath: string, node: Node, k: string)
    requires node.File? && Canonical(k)
    ensures Canonical(ItemFor(archivePath, PartitionKey(node.year, node.month), k).key)
    ensures staging + Split(ItemFor(archivePath, PartitionKey(node.year, node.month), k).key) == DestFor(staging, node, k)
    ensures ItemFor(archivePath, PartitionKey(node.year, node.month), k).path
            == Join(archivePath, ItemFor(archivePath, PartitionKey(node.year, node.month), k).key)
  {
    PartitionKeyNames(node.year, node.month);
    PartitionOf(PartitionKey(node.year, node.month), node.year, node.month);
    KeyUnder(staging, PartitionKey(node.year, node.month), PartitionNames(node.year, node.month), k);
  }

  /** A key filed under a partition names the partition's directories and
      then the key's own components. */
  lemma KeyUnder(staging: Path, partition: string, names: Path, k: string)
    requires Canonical(partition) && Split(partition) == names && Canonical(k)
    ensures Canonical(Join(partition, k))
    ensures staging + Split(Join(partition, k)) == staging + names + Split(k)
  {
    JoinCanonical(partition, k);
    assert staging + (names + Split(k)) == staging + names + Split(k);
  }

  /** Different eligible entries report records with different keys. */
  lemma PlannedItemsApart(pl: Plan, k1: string, k2: string)
    requires WellFormed(pl.o) && Moveable(pl, k1) && Moveable(pl, k2)
    requires PlannedItem(pl, k1).key == PlannedItem(pl, k2).key
    ensures k1 == k2
  {
    PlannedItemLands(pl, k1);
    PlannedItemLands(pl, k2);
    DestsApart(pl, k1, k2);
  }

  // ---------------------------------------------------------------------------
  // One step of the transfer
  // ---------------------------------------------------------------------------

  /** The path strings built for one file: the staging path joined with the
      partition and the key resolves to the staging directory followed by the
      components of both, and its directory part to the parent of that. */
  lemma ArchiveTarget(cwd: Path, archivePath: string, partition: string, key: string)
    requires archivePath != "" && archivePath[|archivePath| - 1] != '/'
    requires Canonical(partition) && Canonical(key)
    ensures Resolve(cwd, Join(archivePath, Join(partition, key)))
            == Resolve(cwd, archivePath) + Split(partition) + Split(key)
    ensures Dirname(Join(archivePath, Join(partition, key))) != ""
    ensures Resolve(cwd, Dirname(Join(archivePath, Join(partition, key))))
            == Parent(Resolve(cwd, archivePath) + Split(partition) + Split(key))
  {
    JoinCanonical(partition, key);
    ResolveJoinCanonical(cwd, archivePath, Join(partition, key));
    ArchiveTargetDir(cwd, archivePath, Join(partition, key));
  }

  /** The directory part of the staging path joined with a plain key is not
      empty and resolves to the parent of what the joined path resolves to. */
  lemma ArchiveTargetDir(cwd: Path, archivePath: string, keyPath: string)
    requires archivePath != "" && archivePath[|archivePath| - 1] != '/' && Canonical(keyPath)
    ensures Dirname(Join(archivePath, keyPath)) != "" && Resolve(cwd, Join(archivePath, keyPath)) != []
    ensures Resolve(cwd, Dirname(Join(archivePath, keyPath))) == Parent(Resolve(cwd, Join(archivePath, keyPath)))
  {
    var filePath := Join(archivePath, keyPath);
    ResolveJoinCanonical(cwd, archivePath, keyPath);
    CanonicalResolve(cwd, keyPath);
    assert filePath == archivePath + "/" + keyPath;
    SplitConcat(archivePath, keyPath);
    DirnameResolve(cwd, filePath);
    DirnameNonEmpty(archivePath, keyPath);
  }

  /** The names from the staging directory down to the directory a file goes
      in: its partition and then its key, without the key's last name. */
  function DirNames(partition: string, key: string): Path {
    var names := Split(partition) + Split(key);
    names[..|names| - 1]
  }

  /** The last name of a file's partition and key. */
  function LastName(partition: string, key: string): string {
    var names := Split(partition) + Split(key);
    names[|names| - 1]
  }

  /** A key filed under a partition is the names down to its directory, a
      separator, and its last name. */
  lemma KeyPathParts(partition: string, key: string)
    requires Canonical(partition) && Canonical(key)
    ensures Join(partition, key) == JoinAll(DirNames(partition, key)) + "/" + LastName(partition, key)
    ensures ValidNames(DirNames(partition, key)) && '/' !in LastName(partition, key)
    ensures var j := JoinAll(DirNames(partition, key)); j != "" && j[0] != '/' && j[|j| - 1] != '/'
    ensures Split(JoinAll(DirNames(partition, key))) == DirNames(partition, key)
  {
    var keyPath := Join(partition, key);
    JoinCanonical(partition, key);
    CanonicalResolve([], keyPath);
    var names := Split(keyPath);
    var ys := names[..|names| - 1];
    assert keyPath == JoinAll(ys) + "/" + names[|names| - 1];
    assert forall i :: 0 <= i < |ys| ==> ys[i] == names[i];
    JoinAllEnds(ys);
    SplitJoinAll(ys);
    assert names[|names| - 1] in names;
  }

  /** The directory part of a file's path is the staging path followed by
      the names down to the directory the file goes in. */
  lemma FileDirSplit(archivePath: string, partition: string, key: string)
    requires archivePath != "" && archivePath[|archivePath| - 1] != '/'
    requires Canonical(partition) && Canonical(key)
    ensures Split(Dirname(Join(archivePath, Join(partition, key)))) == Split(archivePath) + DirNames(partition, key)
    ensures IsAbsolute(Dirname(Join(archivePath, Join(partition, key)))) == IsAbsolute(archivePath)
    ensures ValidNames(DirNames(partition, key))
  {
    KeyPathParts(partition, key);
    var keyDir := JoinAll(DirNames(partition, key));
    DirnameOfJoined(archivePath, keyDir, LastName(partition, key));
    SplitConcat(archivePath, keyDir);
    assert (archivePath + "/" + keyDir)[0] == archivePath[0];
  }

  /** The parent of a destination is the staging directory followed by the
      names down to the directory the file goes in. */
  lemma ParentOfDest(staging: Path, partition: string, key: string)
    ensures Parent(staging + Split(partition) + Split(key)) == staging + DirNames(partition, key)
  {
  }

  /** With the staging path open, every location a directory path that goes
      on from the staging path by names passes through is a directory
      already, or is missing and on the way to the parent of `d`. */
  lemma FileDirWay(nodes: Tree, cwd: Path, archivePath: string, fileDir: string, ys: seq<string>, d: Path)
    requires Split(fileDir) == Split(archivePath) + ys && IsAbsolute(fileDir) == IsAbsolute(archivePath)
    requires ValidNames(ys)
    requires forall q :: q in VisitedBy(cwd, archivePath) ==> IsDirectory(nodes, q)
    requires d != [] && Parent(d) == Resolve(cwd, archivePath) + ys
    requires Clear(nodes, Resolve(cwd, archivePath), d)
    ensures forall q :: q in VisitedBy(cwd, fileDir) ==>
              IsDirectory(nodes, q) || (q !in nodes && IsPrefix(q, Parent(d)))
  {
    forall q | q in VisitedBy(cwd, fileDir)
      ensures IsDirectory(nodes, q) || (q !in nodes && IsPrefix(q, Parent(d)))
    {
      VisitedThenDown(cwd, archivePath, fileDir, ys, q);
      if q !in VisitedBy(cwd, archivePath) {
        assert q == d[..|q|];
      }
    }
  }

  /** A path with a separator after a non-empty head has a non-empty directory part. */
  lemma DirnameNonEmpty(a: string, b: string)
    requires a != ""
    ensures Dirname(a + "/" + b) != ""
  {
    var p := a + "/" + b;
    var i := AfterLastSeparator(p);
    assert p[|a|] == '/';
    assert i > |a|;
    var head := p[..i];
    if !AllSeparators(head) {
      StripTrailingSeparatorsResolve([], head);
    }
  }

  /** A string that splits into the names of a partition is its key. */
  lemma PartitionOf(partition: string, year: nat, month: Month)
    requires Split(partition) == PartitionNames(year, month)
    ensures partition == PartitionKey(year, month) && Canonical(partition)
  {
    PartitionKeyNames(year, month);
    CanonicalResolve([], partition);
  }

  /** The destination of a file is the staging directory followed by the names
      of its partition and of its key. */
  lemma DestOf(staging: Path, node: Node, partition: string, key: string)
    requires node.File? && Split(partition) == PartitionNames(node.year, node.month)
    ensures DestFor(staging, node, key) == staging + Split(partition) + Split(key)
    ensures StrictPrefix(staging, DestFor(staging, node, key))
  {
    StrictPrefixConcat(staging, Split(partition), Split(key));
  }

  /** Staging one file (the body of the loop in `transfer_to_archive`): name
      its partition, create the way to its destination, move it there, and
      report the archive key and the new path. */
  method ArchiveOne(fs: FileSystem, archivePath: string, key: string, ghost staging: Path, ghost node: Node, ghost d: Path)
    returns (item: ArchiveKey)
    requires fs.Valid() && Canonical(key) && IsFile(fs.nodes, Resolve(fs.cwd, key))
    requires archivePath != "" && archivePath[|archivePath| - 1] != '/'
    requires staging == Resolve(fs.cwd, archivePath) && IsDirectory(fs.nodes, staging)
    requires node == fs.nodes[Resolve(fs.cwd, key)] && d == DestFor(staging, node, key)
    requires Clear(fs.nodes, staging, d) && !IsDirectory(fs.nodes, d)
    requires forall q :: q in VisitedBy(fs.cwd, archivePath) ==> IsDirectory(fs.nodes, q)
    modifies fs
    ensures fs.Valid()
    ensures item == ItemFor(archivePath, PartitionKey(node.year, node.month), key)
    ensures fs.nodes == AfterMove(old(fs.nodes), Resolve(fs.cwd, key), d)
  {
    var partition := CreateArchiveKey(fs, key);
    var keyPath := Join(partition, key);
    var filePath := Join(archivePath, keyPath);
    var fileDir := Dirname(filePath);

    PartitionOf(partition, node.year, node.month);
    DestOf(staging, node, partition, key);
    ArchiveTarget(fs.cwd, archivePath, partition, key);
    FileDirSplit(archivePath, partition, key);
    ParentOfDest(staging, partition, key);
    FileDirWay(fs.nodes, fs.cwd, archivePath, fileDir, DirNames(partition, key), d);
    PlaceFile(fs, key, filePath, fileDir, Resolve(fs.cwd, key), d);
    item := ArchiveKey(keyPath, filePath);
  }

  /** `os.makedirs(file_dir, exist_ok=True)` and then `shutil.move(key,
      file_path)`, where `file_dir` names the parent of the destination. */
  method PlaceFile(fs: FileSystem, key: string, filePath: string, fileDir: string, ghost src: Path, ghost d: Path)
    requires fs.Valid() && Resolve(fs.cwd, key) == src && IsFile(fs.nodes, src)
    requires Resolve(fs.cwd, filePath) == d && d != [] && !IsDirectory(fs.nodes, d)
    requires fileDir != "" && Resolve(fs.cwd, fileDir) == Parent(d)
    requires forall q :: q in VisitedBy(fs.cwd, fileDir) ==>
               IsDirectory(fs.nodes, q) || (q !in fs.nodes && IsPrefix(q, Parent(d)))
    modifies fs
    ensures fs.Valid()
    ensures fs.nodes == AfterMove(old(fs.nodes), src, d)
  {
    ghost var before := fs.nodes;
    VisitedMadeIsWay(fs.nodes, fs.cwd, fileDir);
    fs.MakeDirs(fileDir);
    assert fs.nodes == before + Made(before, Parent(d));
    assert d !in Made(before, Parent(d));
    fs.Move(key, filePath);
  }

  // ---------------------------------------------------------------------------
  // The transfer
  // ---------------------------------------------------------------------------

  /** Handling a key without a record reports nothing. */
  lemma NoValue<K, V>(m: map<K, V>, done: set<K>, k: K)
    requires k !in m
    ensures ValuesAt(m, done + {k}) == ValuesAt(m, done)
  {
  }

  /** Reporting the record of a new key keeps the records apart. */
  lemma NewValue<K, V>(m: map<K, V>, done: set<K>, k: K, items: seq<V>)
    requires Injective(m) && k in m && k !in done
    requires Elements(items) == ValuesAt(m, done) && Distinct(items)
    ensures Elements(items + [m[k]]) == ValuesAt(m, done + {k})
    ensures Distinct(items + [m[k]])
  {
    assert Elements(items + [m[k]]) == Elements(items) + {m[k]};
    assert ValuesAt(m, done + {k}) == ValuesAt(m, done) + {m[k]};
    forall j | j in m && j in done ensures m[j] != m[k] {
    }
    assert m[k] !in Elements(items);
  }

  /** Different eligible entries report different records. */
  lemma RecordsInjective(pl: Plan)
    requires Transferable(pl)
    ensures Injective(Records(pl))
  {
    var m := Records(pl);
    forall k1, k2 | k1 in m && k2 in m && m[k1] == m[k2] ensures k1 == k2 {
      PlannedItemsApart(pl, k1, k2);
    }
  }

  /** What the loop of the transfer knows about each key: it has a move
      exactly when its entry is eligible, and then it is a plain relative path
      naming the file to move, its destination is the partition of that file
      followed by the key, and its record is the one `ItemFor` builds. */
  ghost predicate Agrees(o: Tree, cwd: Path, paths: map<string, ArchivePath>, archivePath: string,
                         staging: Path, batch: Batch, records: map<string, ArchiveKey>) {
    && batch.Keys == records.Keys == EligibleKeys(paths)
    && (forall k :: k in batch ==>
          && paths[k].key == k && Canonical(k) && Resolve(cwd, k) == batch[k].src
          && IsFile(o, batch[k].src)
          && batch[k].dst == DestFor(staging, o[batch[k].src], k)
          && records[k] == ItemFor(archivePath, PartitionKey(o[batch[k].src].year, o[batch[k].src].month), k))
  }

  /** A catalogue the transfer can handle agrees with its moves and records. */
  lemma PlanAgrees(pl: Plan)
    requires Transferable(pl)
    ensures Agrees(pl.o, pl.cwd, pl.paths, StagingPath(pl.archiveDir), Staging(pl), MovesOf(pl), Records(pl))
  {
    forall k | k in MovesOf(pl) ensures Resolve(pl.cwd, k) == Src(pl, k) {
      CanonicalResolve(pl.cwd, k);
    }
  }

  /** `transfer_to_archive(paths, archive_dir)`: create the staging directory,
      then move every entry marked for archiving that is not a directory into
      its partition, and report one record per file moved, with their count. */
  method TransferToArchive(fs: FileSystem, paths: map<string, ArchivePath>, archiveDir: string)
    returns (items: seq<ArchiveKey>, n: nat)
    requires fs.Valid() && Transferable(Plan(fs.nodes, fs.cwd, archiveDir, paths))
    modifies fs
    ensures fs.Valid()
    ensures n == |items| && Distinct(items)
    ensures Elements(items) == Planned(Plan(old(fs.nodes), fs.cwd, archiveDir, paths))
    ensures Transferred(Plan(old(fs.nodes), fs.cwd, archiveDir, paths), fs.nodes)
  {
    ghost var pl := Plan(fs.nodes, fs.cwd, archiveDir, paths);
    PlanIndependent(pl);
    RecordsInjective(pl);
    PlanAgrees(pl);
    var archivePath := StagingPath(archiveDir);
    StagingPathShape(fs.cwd, archiveDir);
    VisitedMadeIsWay(fs.nodes, fs.cwd, archivePath);
    fs.MakeDirs(archivePath);
    Begin(pl.o, Staging(pl), MovesOf(pl), fs.nodes);
    items, n := MoveAll(fs, paths, archivePath, pl.o, Staging(pl), MovesOf(pl), Records(pl));
  }

  /** The loop of `transfer_to_archive`: every entry in turn, in the order
      the catalogue yields them. */
  method MoveAll(fs: FileSystem, paths: map<string, ArchivePath>, archivePath: string,
                 ghost o: Tree, ghost staging: Path, ghost batch: Batch, ghost records: map<string, ArchiveKey>)
    returns (items: seq<ArchiveKey>, n: nat)
    requires fs.Valid() && Independent(o, staging, batch) && MovedSoFar(o, staging, batch, {}, fs.nodes)
    requires Injective(records) && Agrees(o, fs.cwd, paths, archivePath, staging, batch, records)
    requires archivePath != "" && archivePath[|archivePath| - 1] != '/' && staging == Resolve(fs.cwd, archivePath)
    requires forall q :: q in VisitedBy(fs.cwd, archivePath) ==> IsDirectory(o, q) || IsPrefix(q, staging)
    modifies fs
    ensures fs.Valid() && MovedSoFar(o, staging, batch, paths.Keys, fs.nodes)
    ensures Elements(items) == ValuesAt(records, paths.Keys) && Distinct(items) && n == |items|
  {
    items := [];
    n := 0;
    var remaining := paths.Keys;
    ghost var done: set<string> := {};
    while remaining != {}
      invariant fs.Valid() && done + remaining == paths.Keys && done !! remaining
      invariant MovedSoFar(o, staging, batch, done, fs.nodes)
      invariant Elements(items) == ValuesAt(records, done) && Distinct(items) && n == |items|
      decreases remaining
    {
      var k :| k in remaining;
      items, n := HandleEntry(fs, paths, archivePath, k, o, staging, batch, records, done, items, n);
      TakeOne(done, remaining, paths.Keys, k);
      remaining := remaining - {k};
      done := done + {k};
    }
    assert done + {} == done;
  }

  /** Moving one key from the keys to come to the keys done keeps them apart
      and together all the keys. */
  lemma TakeOne<T>(done: set<T>, remaining: set<T>, all: set<T>, k: T)
    requires done + remaining == all && done !! remaining && k in remaining
    ensures (done + {k}) + (remaining - {k}) == all && (done + {k}) !! (remaining - {k})
  {
  }

  /** One turn of the loop of `transfer_to_archive`: skip the entry unless it
      is marked for archiving and not a directory, and otherwise stage its file
      and report its record. */
  method HandleEntry(fs: FileSystem, paths: map<string, ArchivePath>, archivePath: string, k: string,
                     ghost o: Tree, ghost staging: Path, ghost batch: Batch, ghost records: map<string, ArchiveKey>,
                     ghost done: set<string>, items: seq<ArchiveKey>, n: nat)
    returns (items': seq<ArchiveKey>, n': nat)
    requires fs.Valid() && Independent(o, staging, batch) && MovedSoFar(o, staging, batch, done, fs.nodes)
    requires Injective(records) && Agrees(o, fs.cwd, paths, archivePath, staging, batch, records)
    requires archivePath != "" && archivePath[|archivePath| - 1] != '/' && staging == Resolve(fs.cwd, archivePath)
    requires forall q :: q in VisitedBy(fs.cwd, archivePath) ==> IsDirectory(o, q) || IsPrefix(q, staging)
    requires k in paths && k !in done
    requires Elements(items) == ValuesAt(records, done) && Distinct(items) && n == |items|
    modifies fs
    ensures fs.Valid() && MovedSoFar(o, staging, batch, done + {k}, fs.nodes)
    ensures Elements(items') == ValuesAt(records, done + {k}) && Distinct(items') && n' == |items'|
  {
    var path := paths[k];
    if !path.shouldArchive || path.isDir {
      assert k !in batch && k !in records;
      Skip(o, staging, batch, done, fs.nodes, k);
      NoValue(records, done, k);
      return items, n;
    }
    assert k in batch && path.key == k;
    ghost var before := fs.nodes;
    ghost var src := batch[k].src;
    forall q | q in VisitedBy(fs.cwd, archivePath) ensures IsDirectory(fs.nodes, q) {
      WayStaysOpen(o, staging, batch, done, fs.nodes, q);
    }
    var item := ArchiveOne(fs, archivePath, path.key, staging, o[src], batch[k].dst);
    Moves.Step(o, staging, batch, done, before, k, fs.nodes);
    NewValue(records, done, k, items);
    items' := items + [item];
    n' := n + 1;
  }

  /** After the transfer, each eligible entry's file is gone from where it
      was and lies, unchanged, at its destination, which is where the path in
      its record leads. */
  lemma EligibleMoved(pl: Plan, nodes: Tree, k: string)
    requires Transferable(pl) && Transferred(pl, nodes) && k in EligibleKeys(pl.paths)
    ensures Src(pl, k) !in nodes
    ensures Dest(pl, k) in nodes && nodes[Dest(pl, k)] == pl.o[Src(pl, k)]
    ensures Resolve(pl.cwd, PlannedItem(pl, k).path) == Dest(pl, k)
  {
    assert k in MovesOf(pl);
    PlannedItemLands(pl, k);
    StagingPathShape(pl.cwd, pl.archiveDir);
    ResolveJoinCanonical(pl.cwd, StagingPath(pl.archiveDir), PlannedItem(pl, k).key);
  }

  /** After the transfer the staging path exists: every location it passes
      through is a directory. */
  lemma StagingExistsAfter(pl: Plan, nodes: Tree)
    requires Transferable(pl) && Transferred(pl, nodes) && WellFormed(nodes)
    ensures Exists(nodes, pl.cwd, StagingPath(pl.archiveDir))
    ensures forall q :: q in VisitedBy(pl.cwd, StagingPath(pl.archiveDir)) ==> IsDirectory(nodes, q)
  {
    var sp := StagingPath(pl.archiveDir);
    PlanIndependent(pl);
    StagingPathShape(pl.cwd, pl.archiveDir);
    forall q | q in VisitedBy(pl.cwd, sp) ensures IsDirectory(nodes, q) {
      WayStaysOpen(pl.o, Staging(pl), MovesOf(pl), pl.paths.Keys, nodes, q);
    }
    OpenPathExists(nodes, pl.cwd, sp);
  }

  /** An entry the transfer skips keeps its file where it was, unless that
      file lay inside the staging directory. */
  lemma IneligibleStays(pl: Plan, nodes: Tree, k: string)
    requires Transferable(pl) && Transferred(pl, nodes)
    requires k in pl.paths && !Eligible(pl.paths[k]) && Canonical(k)
    requires Src(pl, k) in pl.o && !StrictPrefix(Staging(pl), Src(pl, k))
    ensures Src(pl, k) in nodes && nodes[Src(pl, k)] == pl.o[Src(pl, k)]
  {
    var batch := MovesOf(pl);
    forall j | j in batch ensures batch[j].src != Src(pl, k) && batch[j].dst != Src(pl, k) {
      if batch[j].src == Src(pl, k) {
        SourcesApart(pl, j, k);
      }
      SourceAndDest(pl, j);
    }
    FrameHolds(pl.o, Staging(pl), batch, pl.paths.Keys, nodes, Src(pl, k));
  }

  /** An entry of the old filesystem that no move touches is unchanged. */
  lemma FrameHolds(o: Tree, staging: Path, batch: Batch, done: set<string>, nodes: Tree, q: Path)
    requires MovedSoFar(o, staging, batch, done, nodes) && q in o
    requires forall j :: j in batch ==> batch[j].src != q && batch[j].dst != q
    ensures q in nodes && nodes[q] == o[q]
  {
    assert q !in Sources(batch, done) && q !in Dests(batch, done);
  }
}
