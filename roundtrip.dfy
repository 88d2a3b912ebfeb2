/** Archiving and then listing the archive: once `transfer_to_archive` has
    moved the eligible files into a staging directory that held no files, the
    records `get_items_in_archive` reports are exactly the records the transfer
    returned, as many of them and the same pairs. */
module ArchiveRoundTrip {
  import opened Paths
  import opened Disk
  import opened Listings
  import opened ArchiveKeys
  import opened ArchivePaths
  import opened Moves
  import opened ArchiveTransfer
  import opened ArchiveManifest

  /** The record the transfer reports for an entry is the record the listing
      makes for the file at the entry's destination. */
  lemma RecordIsListed(pl: Plan, k: string)
    requires Moveable(pl, k)
    ensures Dest(pl, k)[|Staging(pl)|..] == Split(PlannedItem(pl, k).key)
    ensures ManifestItem(StagingPath(pl.archiveDir), Split(PlannedItem(pl, k).key)) == PlannedItem(pl, k)
  {
    PlannedItemLands(pl, k);
    ManifestItemOfKey(StagingPath(pl.archiveDir), PlannedItem(pl, k).key);
  }

  /** The listing of the staging directory after a transfer into a staging
      directory without files is the set of records the transfer reports. */
  lemma ListingIsPlanned(pl: Plan, nodes: Tree)
    requires Transferable(pl) && Transferred(pl, nodes)
    requires FilesUnder(pl.o, Staging(pl)) == {}
    ensures Manifest(nodes, pl.cwd, pl.archiveDir) == Planned(pl)
  {
    var sp := StagingPath(pl.archiveDir);
    var a := Staging(pl);
    var batch := MovesOf(pl);
    var records := Records(pl);
    StagingPathShape(pl.cwd, pl.archiveDir);
    PlanIndependent(pl);
    StagedAreMoved(pl.o, a, batch, pl.paths.Keys, nodes);
    forall x | x in Manifest(nodes, pl.cwd, pl.archiveDir) ensures x in Planned(pl) {
      var q :| q in FilesUnder(nodes, a) && x == ManifestItem(sp, q[|a|..]);
      var k :| k in batch && k in pl.paths.Keys && batch[k].dst == q;
      RecordIsListed(pl, k);
      assert records[k] == x;
    }
    forall x | x in Planned(pl) ensures x in Manifest(nodes, pl.cwd, pl.archiveDir) {
      var k :| k in records && k in pl.paths.Keys && records[k] == x;
      assert k in batch;
      var q := batch[k].dst;
      assert q in Dests(batch, pl.paths.Keys);
      RecordIsListed(pl, k);
    }
  }

  /** A key `./x` splits into the current-directory name and `x`. */
  lemma DotKeySplit(x: string)
    requires ValidName(x)
    ensures Split("./" + x) == [".", x]
  {
    assert "./" + x == "." + "/" + x;
    SplitConcat(".", x);
    SplitNoSeparator(".");
    SplitNoSeparator(x);
  }

  /** A key `./x` is not plain, yet it names the same file as `x`. */
  lemma DotKeyResolves(cwd: Path, x: string)
    requires ValidName(x)
    ensures !Canonical("./" + x)
    ensures Resolve(cwd, "./" + x) == Resolve(cwd, x) == cwd + [x]
  {
    var dx := "./" + x;
    DotKeySplit(x);
    ResolveFromOne(cwd, ".");
    assert [".", x] == ["."] + [x];
    ResolveFromSnoc(cwd, ["."], x);
    assert dx[0] == '.';
    assert Resolve(cwd, dx) == Paths.Step(cwd, x);
    assert x[0] in x;
    SplitNoSeparator(x);
    CanonicalResolve(cwd, x);
  }

  /** The transfer reports a key `./x` as `partition/./x`. */
  lemma DotKeyReported(sp: string, partition: string, x: string)
    requires Canonical(partition)
    ensures ItemFor(sp, partition, "./" + x).key == partition + "/" + ("./" + x)
  {
    CanonicalResolve([], partition);
    assert !IsAbsolute("./" + x);
  }

  /** The listing rebuilds the key of the file `x` in a partition as `partition/x`. */
  lemma FileKeyListed(sp: string, partition: string, x: string)
    requires Canonical(partition)
    ensures ManifestItem(sp, Split(partition) + [x]).key == partition + "/" + x
  {
    CanonicalResolve([], partition);
    var names := Split(partition);
    DropLastAppend(names, x);
    assert JoinAll(names + [x]) == JoinAll(names) + "/" + x;
  }

  /** Why keys must be plain: a key `./x` (what a scan of `.` produces) names
      the same file as `x`, and the transfer reports it as `partition/./x`,
      but the file lands at `partition/x`, which is the key the listing
      rebuilds from the walk. */
  lemma DotKeyBreaksRoundTrip(cwd: Path, sp: string, partition: string, x: string)
    requires Canonical(partition) && ValidName(x)
    ensures !Canonical("./" + x)
    ensures Resolve(cwd, "./" + x) == Resolve(cwd, x)
    ensures ItemFor(sp, partition, "./" + x).key != ManifestItem(sp, Split(partition) + [x]).key
  {
    DotKeyResolves(cwd, x);
    DotKeyReported(sp, partition, x);
    FileKeyListed(sp, partition, x);
    assert |partition + "/" + ("./" + x)| != |partition + "/" + x|;
  }

  /** A sequence without repeats has as many elements as its length. */
  lemma {:induction false} DistinctCount<T>(s: seq<T>)
    requires Distinct(s)
    ensures |Elements(s)| == |s|
    decreases |s|
  {
    if s != [] {
      var init := s[..|s| - 1];
      DistinctCount(init);
      ElementsTakeOneMore(s, |s| - 1);
      assert s[..|s|] == s;
      assert s[|s| - 1] !in Elements(init);
    }
  }

  /** Two sequences without repeats holding the same elements have the same length. */
  lemma SameElementsSameLength<T>(s: seq<T>, t: seq<T>)
    requires Distinct(s) && Distinct(t) && Elements(s) == Elements(t)
    ensures |s| == |t|
  {
    DistinctCount(s);
    DistinctCount(t);
  }

  /** `transfer_to_archive` followed by `get_items_in_archive` on the same
      directory: the listing reports the same pairs as the transfer, and as
      many of them as the count the transfer returned. */
  method ArchiveThenList(fs: FileSystem, paths: map<string, ArchivePath>, archiveDir: string)
    returns (items: seq<ArchiveKey>, n: nat, listed: seq<ArchiveKey>)
    requires fs.Valid() && Transferable(Plan(fs.nodes, fs.cwd, archiveDir, paths))
    requires FilesUnder(fs.nodes, Resolve(fs.cwd, StagingPath(archiveDir))) == {}
    modifies fs
    ensures Elements(listed) == Elements(items) && |listed| == |items| == n
  {
    ghost var pl := Plan(fs.nodes, fs.cwd, archiveDir, paths);
    StagingPathShape(fs.cwd, archiveDir);
    items, n := TransferToArchive(fs, paths, archiveDir);
    StagingExistsAfter(pl, fs.nodes);
    listed := GetItemsInArchive(fs, archiveDir);
    ListingIsPlanned(pl, fs.nodes);
    SameElementsSameLength(listed, items);
  }
}
