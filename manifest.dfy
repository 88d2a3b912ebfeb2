/** What `get_items_in_archive` reports: walking the staging directory
    `archive_dir/.archive`, one record per file found, pairing the file's path
    relative to the staging directory (its key in the archive) with its path
    on disk. */
module ArchiveManifest {
  import opened Paths
  import opened Disk
  import opened Listings
  import opened ArchiveKeys
  import opened ArchiveTransfer

  /** The record reported for the file reached from the staging path `sp` by
      the names `rel`: the names joined with separators, and `sp` joined with
      each of them in turn. */
  function ManifestItem(sp: string, rel: Path): ArchiveKey {
    ArchiveKey(JoinAll(rel), Under(sp, rel))
  }

  /** Every record `get_items_in_archive(archive_dir)` can report: one per file
      inside the staging directory, at any depth. */
  ghost function Manifest(nodes: Tree, cwd: Path, archiveDir: string): set<ArchiveKey> {
    var sp := StagingPath(archiveDir);
    var a := Resolve(cwd, sp);
    set q | q in FilesUnder(nodes, a) :: ManifestItem(sp, q[|a|..])
  }

  /** A record names the file it was made for: its key splits back into the
      names below the staging directory, and its path resolves to that file. */
  lemma ManifestItemNamesFile(cwd: Path, sp: string, rel: Path)
    requires |rel| >= 1 && ValidNames(rel)
    ensures Split(ManifestItem(sp, rel).key) == rel
    ensures Resolve(cwd, ManifestItem(sp, rel).path) == Resolve(cwd, sp) + rel
  {
    SplitJoinAll(rel);
    ResolveUnder(cwd, sp, rel);
  }

  /** Different files give different records. */
  lemma ManifestItemInjective(sp: string, r1: Path, r2: Path)
    requires |r1| >= 1 && ValidNames(r1) && |r2| >= 1 && ValidNames(r2)
    requires ManifestItem(sp, r1) == ManifestItem(sp, r2)
    ensures r1 == r2
  {
    SplitJoinAll(r1);
    SplitJoinAll(r2);
  }

  /** The record of a file staged under the plain relative key `key` is
      `(key, os.path.join(sp, key))`. */
  lemma ManifestItemOfKey(sp: string, key: string)
    requires Canonical(key)
    ensures ManifestItem(sp, Split(key)) == ArchiveKey(key, Join(sp, key))
  {
    CanonicalResolve([], key);
    UnderIsJoin(sp, Split(key));
  }

  // ---------------------------------------------------------------------------
  // The records of one walked directory
  // ---------------------------------------------------------------------------

  /** The pairs the inner loop builds from a walked directory path, the part
      of it after the staging path, and the directory's file names. */
  function StepItems(dirpath: string, rootHead: string, names: seq<string>): (items: seq<ArchiveKey>)
    ensures |items| == |names|
    ensures forall n :: 0 <= n < |names| ==> items[n] == ArchiveKey(Join(rootHead, names[n]), Join(dirpath, names[n]))
  {
    if names == [] then []
    else StepItems(dirpath, rootHead, names[..|names| - 1]) + [ArchiveKey(Join(rootHead, names[|names| - 1]), Join(dirpath, names[|names| - 1]))]
  }

  lemma StepItemsStep(dirpath: string, rootHead: string, names: seq<string>, j: nat)
    requires j < |names|
    ensures StepItems(dirpath, rootHead, names[..j + 1])
            == StepItems(dirpath, rootHead, names[..j]) + [ArchiveKey(Join(rootHead, names[j]), Join(dirpath, names[j]))]
  {
    assert names[..j + 1][..j] == names[..j];
  }

  /** The inner loop of `get_items_in_archive`: one pair per file name of a
      walked directory, in order. */
  method AppendStepItems(items: seq<ArchiveKey>, dirpath: string, rootHead: string, names: seq<string>)
    returns (out: seq<ArchiveKey>)
    ensures out == items + StepItems(dirpath, rootHead, names)
  {
    out := items;
    for j := 0 to |names|
      invariant out == items + StepItems(dirpath, rootHead, names[..j])
    {
      StepItemsStep(dirpath, rootHead, names, j);
      var key := Join(rootHead, names[j]);
      var filePath := Join(dirpath, names[j]);
      out := out + [ArchiveKey(key, filePath)];
    }
    assert names[..|names|] == names;
  }

  /** The names below the staging directory of the files of one walked directory. */
  function StepRels(step: WalkStep): (rels: seq<Path>)
    ensures |rels| == |step.filenames|
    ensures forall n :: 0 <= n < |rels| ==> rels[n] == step.rel + [step.filenames[n]]
  {
    seq(|step.filenames|, n requires 0 <= n < |step.filenames| => step.rel + [step.filenames[n]])
  }

  /** The records of a sequence of files below the staging path `sp`. */
  function ItemsOf(sp: string, rels: seq<Path>): (items: seq<ArchiveKey>)
    ensures |items| == |rels|
    ensures forall m :: 0 <= m < |rels| ==> items[m] == ManifestItem(sp, rels[m])
  {
    seq(|rels|, m requires 0 <= m < |rels| => ManifestItem(sp, rels[m]))
  }

  lemma ItemsOfConcat(sp: string, a: seq<Path>, b: seq<Path>)
    ensures ItemsOf(sp, a + b) == ItemsOf(sp, a) + ItemsOf(sp, b)
  {
  }

  /** Cutting the staging path and its separator off a walked directory path
      and joining a file name gives the file's names joined with separators;
      joining the name to the directory path gives the path below `sp`. */
  lemma WalkedItem(sp: string, rel: Path, f: string)
    requires sp != "" && sp[|sp| - 1] != '/'
    requires ValidNames(rel) && ValidName(f)
    ensures ArchiveKey(Join(SliceFrom(Under(sp, rel), |sp| + 1), f), Join(Under(sp, rel), f))
            == ManifestItem(sp, rel + [f])
  {
    UnderAppend(sp, rel, f);
    assert f[0] in f;
    DropLastAppend(rel, f);
    if rel == [] {
      assert SliceFrom(sp, |sp| + 1) == "";
      assert Join("", f) == f;
      assert rel + [f] == [f];
    } else {
      UnderFlat(sp, rel);
      JoinAllEnds(rel);
      var j := JoinAll(rel);
      assert (sp + "/" + j)[|sp| + 1..] == j;
      assert Join(j, f) == j + "/" + f;
    }
  }

  /** The pairs the inner loop builds for one walked directory are the
      records of its files. */
  lemma StepItemsAreRecords(nodes: Tree, sp: string, p: Path, step: WalkStep)
    requires WellFormed(nodes) && sp != "" && sp[|sp| - 1] != '/'
    requires StepOf(nodes, sp, p, step)
    ensures StepItems(step.dirpath, SliceFrom(step.dirpath, |sp| + 1), step.filenames) == ItemsOf(sp, StepRels(step))
  {
    var got := StepItems(step.dirpath, SliceFrom(step.dirpath, |sp| + 1), step.filenames);
    var want := ItemsOf(sp, StepRels(step));
    forall n | 0 <= n < |step.filenames| ensures got[n] == want[n] {
      var f := step.filenames[n];
      assert IsFile(nodes, p + step.rel + [f]);
      ChildNameValid(nodes, p + step.rel, f);
      WalkedItem(sp, step.rel, f);
    }
  }

  // ---------------------------------------------------------------------------
  // The files of a whole walk
  // ---------------------------------------------------------------------------

  /** The names below the top of every file of the walked directories, in walk order. */
  function WalkRels(steps: seq<WalkStep>): seq<Path>
    decreases |steps|
  {
    if steps == [] then [] else WalkRels(steps[..|steps| - 1]) + StepRels(steps[|steps| - 1])
  }

  lemma WalkRelsStep(steps: seq<WalkStep>, i: nat)
    requires i < |steps|
    ensures WalkRels(steps[..i + 1]) == WalkRels(steps[..i]) + StepRels(steps[i])
  {
    assert steps[..i + 1][..i] == steps[..i];
  }

  /** Each name sequence of the walk is a walked directory followed by one of its file names. */
  lemma {:induction false} WalkRelOrigin(steps: seq<WalkStep>, m: nat)
    requires m < |WalkRels(steps)|
    ensures exists k, n :: 0 <= k < |steps| && 0 <= n < |steps[k].filenames|
                           && WalkRels(steps)[m] == steps[k].rel + [steps[k].filenames[n]]
    decreases |steps|
  {
    var init := steps[..|steps| - 1];
    var w := WalkRels(init);
    if m < |w| {
      WalkRelOrigin(init, m);
      var k, n :| 0 <= k < |init| && 0 <= n < |init[k].filenames| && w[m] == init[k].rel + [init[k].filenames[n]];
      assert steps[k] == init[k];
    } else {
      var n := m - |w|;
      assert WalkRels(steps)[m] == StepRels(steps[|steps| - 1])[n];
    }
  }

  /** Every file name of every walked directory is in the walk. */
  lemma {:induction false} WalkRelFound(steps: seq<WalkStep>, k: nat, n: nat)
    requires k < |steps| && n < |steps[k].filenames|
    ensures steps[k].rel + [steps[k].filenames[n]] in WalkRels(steps)
    decreases |steps|
  {
    var init := steps[..|steps| - 1];
    var w := WalkRels(init);
    if k < |init| {
      WalkRelFound(init, k, n);
      assert steps[k] == init[k];
      var m :| 0 <= m < |w| && w[m] == init[k].rel + [init[k].filenames[n]];
      assert WalkRels(steps)[m] == w[m];
    } else {
      assert WalkRels(steps)[|w| + n] == StepRels(steps[k])[n];
    }
  }

  /** Two sequences without repeats and without a common element concatenate
      without repeats. */
  lemma DistinctConcat<T>(a: seq<T>, b: seq<T>)
    requires Distinct(a) && Distinct(b)
    requires forall i, j :: 0 <= i < |a| && 0 <= j < |b| ==> a[i] != b[j]
    ensures Distinct(a + b)
  {
  }

  /** Directories visited once each, with file names listed once each, give
      every file once. */
  lemma {:induction false} WalkRelsDistinct(steps: seq<WalkStep>)
    requires forall i, j :: 0 <= i < j < |steps| ==> steps[i].rel != steps[j].rel
    requires forall i :: 0 <= i < |steps| ==> Distinct(steps[i].filenames)
    ensures Distinct(WalkRels(steps))
    decreases |steps|
  {
    if steps != [] {
      var init := steps[..|steps| - 1];
      var last := steps[|steps| - 1];
      WalkRelsDistinct(init);
      var w := WalkRels(init);
      var s := StepRels(last);
      forall i, j | 0 <= i < |w| && 0 <= j < |s| ensures w[i] != s[j] {
        WalkRelOrigin(init, i);
        var k, n :| 0 <= k < |init| && 0 <= n < |init[k].filenames| && w[i] == init[k].rel + [init[k].filenames[n]];
        assert steps[k] == init[k];
        DropLastAppend(init[k].rel, init[k].filenames[n]);
        DropLastAppend(last.rel, last.filenames[j]);
      }
      StepRelsDistinct(last);
      DistinctConcat(w, s);
    }
  }

  lemma StepRelsDistinct(step: WalkStep)
    requires Distinct(step.filenames)
    ensures Distinct(StepRels(step))
  {
    var s := StepRels(step);
    forall i, j | 0 <= i < j < |s| ensures s[i] != s[j] {
      DropLastAppend(step.rel, step.filenames[i]);
      DropLastAppend(step.rel, step.filenames[j]);
    }
  }

  /** Records of distinct files are distinct. */
  lemma ItemsOfDistinct(sp: string, rels: seq<Path>)
    requires Distinct(rels) && forall m :: 0 <= m < |rels| ==> |rels[m]| >= 1 && ValidNames(rels[m])
    ensures Distinct(ItemsOf(sp, rels))
  {
    var items := ItemsOf(sp, rels);
    forall i, j | 0 <= i < j < |items| ensures items[i] != items[j] {
      if items[i] == items[j] {
        ManifestItemInjective(sp, rels[i], rels[j]);
      }
    }
  }

  /** With no directory at `a`, nothing lies below it. */
  lemma NoFilesOutsideDirectory(nodes: Tree, a: Path)
    requires WellFormed(nodes)
    ensures FilesUnder(nodes, a) != {} ==> IsDirectory(nodes, a)
  {
    if q :| q in FilesUnder(nodes, a) {
      AncestorIsDirectory(nodes, q, |a|);
      assert q[..|a|] == a;
    }
  }

  /** Each name sequence of a walk of `sp` leads to a file below it. */
  lemma WalkRelIsFile(nodes: Tree, cwd: Path, sp: string, steps: seq<WalkStep>, m: nat)
    requires WellFormed(nodes) && WalkOf(nodes, cwd, sp, steps) && m < |WalkRels(steps)|
    ensures |WalkRels(steps)[m]| >= 1 && ValidNames(WalkRels(steps)[m])
    ensures Resolve(cwd, sp) + WalkRels(steps)[m] in FilesUnder(nodes, Resolve(cwd, sp))
  {
    var a := Resolve(cwd, sp);
    var r := WalkRels(steps)[m];
    WalkRelOrigin(steps, m);
    var k, n :| 0 <= k < |steps| && 0 <= n < |steps[k].filenames| && r == steps[k].rel + [steps[k].filenames[n]];
    WalkedFile(nodes, sp, a, steps[k], steps[k].filenames[n]);
  }

  /** A file name of a walked directory, after the directory's names, leads to
      a file below the top. */
  lemma WalkedFile(nodes: Tree, sp: string, a: Path, step: WalkStep, f: string)
    requires WellFormed(nodes) && StepOf(nodes, sp, a, step) && f in step.filenames
    ensures ValidNames(step.rel + [f])
    ensures a + (step.rel + [f]) in FilesUnder(nodes, a)
  {
    var q := a + step.rel + [f];
    assert IsFile(nodes, q);
    ChildNameValid(nodes, a + step.rel, f);
    AppendAssociates(a, step.rel, f);
    StrictPrefixConcat(a, step.rel, [f]);
  }

  /** Each file below `sp` is reached by a name sequence of the walk. */
  lemma FileIsWalked(nodes: Tree, cwd: Path, sp: string, steps: seq<WalkStep>, q: Path)
    requires WellFormed(nodes) && WalkOf(nodes, cwd, sp, steps) && sp != ""
    requires q in FilesUnder(nodes, Resolve(cwd, sp))
    ensures q[|Resolve(cwd, sp)|..] in WalkRels(steps)
  {
    var a := Resolve(cwd, sp);
    NoFilesOutsideDirectory(nodes, a);
    var d := q[..|q| - 1];
    var f := q[|q| - 1];
    ParentIsDirectory(nodes, q);
    assert d[..|a|] == q[..|a|];
    var i :| 0 <= i < |steps| && a + steps[i].rel == d;
    var rel := steps[i].rel;
    LastStep(a, q, rel);
    assert StepOf(nodes, sp, a, steps[i]);
    assert f in steps[i].filenames;
    var n :| 0 <= n < |steps[i].filenames| && steps[i].filenames[n] == f;
    WalkRelFound(steps, i, n);
  }

  /** The records of a whole walk of the staging path are the manifest, once each. */
  lemma WalkedManifest(nodes: Tree, cwd: Path, archiveDir: string, steps: seq<WalkStep>)
    requires WellFormed(nodes) && WalkOf(nodes, cwd, StagingPath(archiveDir), steps)
    ensures Elements(ItemsOf(StagingPath(archiveDir), WalkRels(steps))) == Manifest(nodes, cwd, archiveDir)
    ensures Distinct(ItemsOf(StagingPath(archiveDir), WalkRels(steps)))
  {
    var sp := StagingPath(archiveDir);
    StagingPathShape(cwd, archiveDir);
    WalkedAreListed(nodes, cwd, sp, steps);
    ListedAreWalked(nodes, cwd, sp, steps);
    if steps != [] {
      WalkRelsDistinct(steps);
    } else {
      assert WalkRels(steps) == [];
    }
    ItemsOfDistinct(sp, WalkRels(steps));
  }

  /** Every record of a walk of `sp` is the record of a file below it. */
  lemma WalkedAreListed(nodes: Tree, cwd: Path, sp: string, steps: seq<WalkStep>)
    requires WellFormed(nodes) && WalkOf(nodes, cwd, sp, steps)
    ensures forall m :: 0 <= m < |WalkRels(steps)| ==> |WalkRels(steps)[m]| >= 1 && ValidNames(WalkRels(steps)[m])
    ensures forall x :: x in ItemsOf(sp, WalkRels(steps)) ==>
              exists q :: q in FilesUnder(nodes, Resolve(cwd, sp)) && x == ManifestItem(sp, q[|Resolve(cwd, sp)|..])
  {
    var a := Resolve(cwd, sp);
    var rels := WalkRels(steps);
    var items := ItemsOf(sp, rels);
    forall m | 0 <= m < |rels| ensures |rels[m]| >= 1 && ValidNames(rels[m]) {
      WalkRelIsFile(nodes, cwd, sp, steps, m);
    }
    forall x | x in items
      ensures exists q :: q in FilesUnder(nodes, a) && x == ManifestItem(sp, q[|a|..])
    {
      var m :| 0 <= m < |items| && items[m] == x;
      WalkRelIsFile(nodes, cwd, sp, steps, m);
      var q := a + rels[m];
      assert q[|a|..] == rels[m];
    }
  }

  /** Every file below `sp` has its record in a walk of `sp`. */
  lemma ListedAreWalked(nodes: Tree, cwd: Path, sp: string, steps: seq<WalkStep>)
    requires WellFormed(nodes) && WalkOf(nodes, cwd, sp, steps) && sp != ""
    ensures forall q :: q in FilesUnder(nodes, Resolve(cwd, sp)) ==>
              ManifestItem(sp, q[|Resolve(cwd, sp)|..]) in ItemsOf(sp, WalkRels(steps))
  {
    var a := Resolve(cwd, sp);
    var rels := WalkRels(steps);
    forall q | q in FilesUnder(nodes, a) ensures ManifestItem(sp, q[|a|..]) in ItemsOf(sp, rels) {
      FileIsWalked(nodes, cwd, sp, steps, q);
      var m :| 0 <= m < |rels| && rels[m] == q[|a|..];
      assert ItemsOf(sp, rels)[m] == ManifestItem(sp, q[|a|..]);
    }
  }

  /** `get_items_in_archive(archive_dir)`: nothing when `os.path.exists` says
      the staging path does not exist; otherwise one record per file inside
      it, in walk order. */
  method GetItemsInArchive(fs: FileSystem, archiveDir: string) returns (items: seq<ArchiveKey>)
    requires fs.Valid()
    ensures !Exists(fs.nodes, fs.cwd, StagingPath(archiveDir)) ==> items == []
    ensures Exists(fs.nodes, fs.cwd, StagingPath(archiveDir)) ==> Elements(items) == Manifest(fs.nodes, fs.cwd, archiveDir)
    ensures Distinct(items)
  {
    var archivePath := StagingPath(archiveDir);
    StagingPathShape(fs.cwd, archiveDir);
    items := [];
    if !Exists(fs.nodes, fs.cwd, archivePath) {
      return;
    }
    var rootLength := |archivePath| + 1;
    var steps := Walk(fs, archivePath);
    for i := 0 to |steps|
      invariant items == ItemsOf(archivePath, WalkRels(steps[..i]))
    {
      var step := steps[i];
      var rootHead := SliceFrom(step.dirpath, rootLength);
      items := AppendStepItems(items, step.dirpath, rootHead, step.filenames);
      StepItemsAreRecords(fs.nodes, archivePath, Resolve(fs.cwd, archivePath), step);
      WalkRelsStep(steps, i);
      ItemsOfConcat(archivePath, WalkRels(steps[..i]), StepRels(step));
    }
    assert steps[..|steps|] == steps;
    WalkedManifest(fs.nodes, fs.cwd, archiveDir, steps);
  }
}
