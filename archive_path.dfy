/** The catalogue record the archiver keeps for each scanned path, and the
    reserved names that are never archived. */
module ArchivePaths {
  import opened Paths

  /** The staging directory the archiver moves files into. */
  const ArchiveDirectory: string := ".archive"
  /** The archiver's own configuration file. */
  const ConfigPath: string := ".archive_config.json"

  predicate IsReservedName(name: string) {
    name == ArchiveDirectory || name == ConfigPath
  }

  /** One catalogue entry. Its fields are set once, when it is built. */
  datatype ArchivePath = ArchivePath(
    key: string,
    daysSinceAccess: int,
    shouldArchive: bool,
    isRoot: bool,
    isDir: bool,
    ignored: bool)

  /** `path.split("/")[-1]`. */
  function LastComponent(path: string): string {
    Split(path)[|Split(path)| - 1]
  }

  /** `path` names `name` directly: it is `name`, or ends with `/` then `name`. */
  predicate EndsWithName(path: string, name: string) {
    path == name || (|path| > |name| && path[|path| - |name| - 1..] == "/" + name)
  }

  /** The `ArchivePath` constructor of the monolithic archiver: an entry whose
      last path component is a reserved name is marked ignored, and an ignored
      entry is never to be archived, whatever the caller asked. */
  function NewArchivePath(path: string, days: int, shouldArchive: bool, isRoot: bool, isDir: bool): (a: ArchivePath)
    ensures a.key == path && a.daysSinceAccess == days && a.isRoot == isRoot && a.isDir == isDir
    ensures a.ignored <==> EndsWithName(path, ArchiveDirectory) || EndsWithName(path, ConfigPath)
    ensures a.shouldArchive <==> shouldArchive && !a.ignored
  {
    LastComponentIsSuffix(path, ArchiveDirectory);
    LastComponentIsSuffix(path, ConfigPath);
    var ignored := IsReservedName(LastComponent(path));
    ArchivePath(path, days, !ignored && shouldArchive, isRoot, isDir, ignored)
  }

  /** The last component is what follows the last separator. */
  lemma LastComponentAfterSeparator(path: string)
    ensures LastComponent(path) == path[AfterLastSeparator(path)..]
  {
    var i := AfterLastSeparator(path);
    var tail := path[i..];
    assert '/' !in tail;
    SplitNoSeparator(tail);
    if i > 0 {
      assert path == path[..i - 1] + "/" + tail;
      SplitConcat(path[..i - 1], tail);
    } else {
      assert path == tail;
    }
  }

  /** For a name without separator, the last component is that name exactly
      when the path names it directly. */
  lemma LastComponentIsSuffix(path: string, name: string)
    requires name != "" && '/' !in name
    ensures LastComponent(path) == name <==> EndsWithName(path, name)
  {
    LastComponentAfterSeparator(path);
    var i := AfterLastSeparator(path);
    if LastComponent(path) == name {
      if i > 0 {
        assert path[|path| - |name| - 1..] == [path[i - 1]] + path[i..];
      } else {
        assert path == name;
      }
    }
    if EndsWithName(path, name) && path != name {
      var j := |path| - |name|;
      assert path[j - 1] == '/';
      assert path[j..] == name;
      forall k | j <= k < |path| ensures path[k] != '/' {
        assert path[k] == name[k - j];
        assert name[k - j] in name;
      }
      assert i == j;
    }
  }
}
