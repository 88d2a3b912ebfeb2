/** The path strings the archiver builds while listing a directory: the
    result of `os.listdir` on a string, and the file paths obtained by joining
    each directory path `os.walk` yields with the names of its files. */
module Listings {
  import opened Wrappers
  import opened Paths
  import opened Disk

  /** The two ways listing a path can fail. */
  datatype FsError = FileNotFound | NotADirectory

  function Elements<T>(s: seq<T>): set<T> {
    set x | x in s
  }

  /** One more element of a sequence adds it to the elements seen so far. */
  lemma ElementsTakeOneMore<T>(s: seq<T>, i: nat)
    requires i < |s|
    ensures Elements(s[..i + 1]) == Elements(s[..i]) + {s[i]}
  {
    assert s[..i + 1] == s[..i] + [s[i]];
  }

  // ---------------------------------------------------------------------------
  // Looking a path string up in the tree, as the operating system does
  // ---------------------------------------------------------------------------

  /** How the operating system follows the components `parts` from `base`:
      each one is looked up in the location reached so far, which must be an
      existing directory -- a missing one fails with not-found, a file with
      not-a-directory. So `..` only steps back out of a directory that exists,
      and a name cannot be looked up inside a file. */
  function Lookup(nodes: Tree, base: Path, parts: seq<string>): (r: Result<Path, FsError>)
    ensures r.Ok? ==> r.value == ResolveFrom(base, parts)
    decreases |parts|
  {
    if parts == [] then Ok(base)
    else
      var r0 := Lookup(nodes, base, parts[..|parts| - 1]);
      if r0.Err? then r0
      else if r0.value !in nodes then Err(FileNotFound)
      else if nodes[r0.value].File? then Err(NotADirectory)
      else Ok(Paths.Step(r0.value, parts[|parts| - 1]))
  }

  /** Looking up the path string `s`. */
  function LookupPath(nodes: Tree, cwd: Path, s: string): Result<Path, FsError> {
    Lookup(nodes, StartOf(cwd, s), Split(s))
  }

  /** `os.path.exists(s)`: the empty string names nothing; otherwise the
      lookup succeeds and lands on an entry. */
  predicate Exists(nodes: Tree, cwd: Path, s: string) {
    s != "" && LookupPath(nodes, cwd, s).Ok? && LookupPath(nodes, cwd, s).value in nodes
  }

  /** Why `os.listdir(path)` raises, if it does: the empty string, a failed
      lookup and a missing location are not found; a file on the way or at
      the end is not a directory. */
  function ListError(nodes: Tree, cwd: Path, path: string): Option<FsError> {
    if path == "" then Some(FileNotFound)
    else match LookupPath(nodes, cwd, path)
      case Err(e) => Some(e)
      case Ok(p) =>
        if p !in nodes then Some(FileNotFound)
        else if nodes[p].File? then Some(NotADirectory)
        else None
  }

  /** The lookup succeeds exactly when every location it passes through
      before the last component is an existing directory. */
  lemma {:induction false} LookupSucceeds(nodes: Tree, base: Path, parts: seq<string>)
    requires parts != []
    ensures Lookup(nodes, base, parts).Ok? <==>
            forall q :: q in Visited(base, parts[..|parts| - 1]) ==> IsDirectory(nodes, q)
    decreases |parts|
  {
    var init := parts[..|parts| - 1];
    if |parts| == 1 {
      assert init == [];
      assert Visited(base, init) == {base};
      assert Lookup(nodes, base, init) == Ok(base);
      if Lookup(nodes, base, parts).Ok? {
        assert IsDirectory(nodes, base);
      } else {
        assert !IsDirectory(nodes, base);
      }
    } else {
      LookupSucceeds(nodes, base, init);
      var v0 := Visited(base, init[..|init| - 1]);
      var last := ResolveFrom(base, init);
      assert Visited(base, init) == v0 + {last};
      if Lookup(nodes, base, parts).Ok? {
        assert IsDirectory(nodes, last);
      } else if forall q :: q in v0 ==> IsDirectory(nodes, q) {
        assert Lookup(nodes, base, init).Ok?;
        assert !IsDirectory(nodes, last);
      }
    }
  }

  /** A path string all of whose locations are directories exists, and its
      lookup agrees with resolving it. */
  lemma OpenPathExists(nodes: Tree, cwd: Path, s: string)
    requires s != "" && forall q :: q in VisitedBy(cwd, s) ==> IsDirectory(nodes, q)
    ensures Exists(nodes, cwd, s) && LookupPath(nodes, cwd, s) == Ok(Resolve(cwd, s))
  {
    var parts := Split(s);
    LookupSucceeds(nodes, StartOf(cwd, s), parts);
    assert Visited(StartOf(cwd, s), parts[..|parts| - 1]) <= VisitedBy(cwd, s);
  }

  /** Lookup of one more component, unfolded. */
  lemma LookupSnoc(nodes: Tree, base: Path, xs: seq<string>, x: string)
    ensures Lookup(nodes, base, xs + [x]) ==
            match Lookup(nodes, base, xs)
              case Err(e) => Err(e)
              case Ok(p) =>
                if p !in nodes then Err(FileNotFound)
                else if nodes[p].File? then Err(NotADirectory)
                else Ok(Paths.Step(p, x))
  {
    DropLastAppend(xs, x);
  }

  /** Once a string looks up to a directory, joining the name of an entry
      looks that entry up: the lookup of a path built by descending from a
      listed directory agrees with resolving it. */
  lemma LookupJoin(nodes: Tree, cwd: Path, s: string, c: string)
    requires LookupPath(nodes, cwd, s).Ok? && IsDirectory(nodes, LookupPath(nodes, cwd, s).value)
    requires ValidName(c)
    ensures LookupPath(nodes, cwd, Join(s, c)) == Ok(LookupPath(nodes, cwd, s).value + [c])
  {
    SplitNoSeparator(c);
    assert c[0] in c;
    if s == "" {
      assert Join(s, c) == c;
      assert Split("") == [""];
      LookupSnoc(nodes, cwd, [], "");
      LookupSnoc(nodes, cwd, [], c);
    } else if s[|s| - 1] == '/' {
      var s0 := s[..|s| - 1];
      LastOf(s);
      assert s == s0 + "/" + "";
      assert Join(s, c) == s0 + "/" + c;
      assert Join(s, c)[0] == s[0];
      SplitConcat(s0, c);
      SplitConcat(s0, "");
      LookupSnoc(nodes, StartOf(cwd, s), Split(s0), "");
      LookupSnoc(nodes, StartOf(cwd, s), Split(s0), c);
    } else {
      assert Join(s, c) == s + "/" + c;
      assert Join(s, c)[0] == s[0];
      SplitConcat(s, c);
      LookupSnoc(nodes, StartOf(cwd, s), Split(s), c);
    }
  }

  /** Stepping back out of a missing directory fails, where resolving the
      string lexically lands back where it started: `os.listdir("m/..")`
      raises when `m` does not exist. */
  lemma UpFromMissingFails(nodes: Tree, cwd: Path, m: string)
    requires IsDirectory(nodes, cwd) && ValidName(m) && cwd + [m] !in nodes
    ensures Resolve(cwd, Join(m, "..")) == cwd
    ensures ListError(nodes, cwd, Join(m, "..")) == Some(FileNotFound)
  {
    TwoComponents(m, "..");
    assert [] + [m] == [m] && [m] + [".."] == [m, ".."];
    LookupSnoc(nodes, cwd, [], m);
    LookupSnoc(nodes, cwd, [m], "..");
    ResolveFromOne(cwd, m);
    ResolveFromSnoc(cwd, [m], "..");
  }

  /** Looking a name up inside a file fails with not-a-directory, where
      resolving the string lexically names a missing entry:
      `os.listdir("f/x")` with `f` a file. */
  lemma ThroughFileFails(nodes: Tree, cwd: Path, f: string, x: string)
    requires IsDirectory(nodes, cwd) && ValidName(f) && IsFile(nodes, cwd + [f]) && ValidName(x)
    ensures ListError(nodes, cwd, Join(f, x)) == Some(NotADirectory)
  {
    TwoComponents(f, x);
    assert [] + [f] == [f] && [f] + [x] == [f, x];
    LookupSnoc(nodes, cwd, [], f);
    LookupSnoc(nodes, cwd, [f], x);
  }

  /** A name joined with a further separator-free component, relative, splits
      into the two. */
  lemma TwoComponents(a: string, b: string)
    requires ValidName(a) && b != "" && '/' !in b
    ensures Join(a, b) == a + "/" + b && !IsAbsolute(Join(a, b))
    ensures Split(Join(a, b)) == [a, b]
  {
    assert a[0] in a && b[0] in b;
    SplitNoSeparator(a);
    SplitNoSeparator(b);
    SplitConcat(a, b);
    assert (a + "/" + b)[0] == a[0];
  }

  /** `os.listdir(path)`. */
  method ListDirAt(fs: FileSystem, path: string) returns (r: Result<seq<string>, FsError>)
    requires fs.Valid()
    ensures r.Err? <==> ListError(fs.nodes, fs.cwd, path).Some?
    ensures r.Err? ==> r.error == ListError(fs.nodes, fs.cwd, path).value
    ensures r.Ok? ==> forall c :: c in r.value <==> Resolve(fs.cwd, path) + [c] in fs.nodes
    ensures r.Ok? ==> Distinct(r.value)
  {
    var e := ListError(fs.nodes, fs.cwd, path);
    if e.Some? {
      return Err(e.value);
    }
    var names := ListDir(fs, Resolve(fs.cwd, path));
    return Ok(names);
  }

  /** The path strings of the files below `top` that walking it and joining
      names produces: `top` followed by the names leading to each file. The
      empty string names no directory, so it has none. */
  ghost function FileKeys(nodes: Tree, cwd: Path, top: string): set<string> {
    var p := Resolve(cwd, top);
    if top == "" then {}
    else set q | q in FilesUnder(nodes, p) :: Under(top, q[|p|..])
  }

  /** A file key names a file below `top`, and is `top` followed by the
      names that lead to it. */
  lemma FileKeyResolves(nodes: Tree, cwd: Path, top: string, s: string)
    requires WellFormed(nodes) && s in FileKeys(nodes, cwd, top)
    ensures top != ""
    ensures Resolve(cwd, s) in FilesUnder(nodes, Resolve(cwd, top))
    ensures s == Under(top, Resolve(cwd, s)[|Resolve(cwd, top)|..])
  {
    var p := Resolve(cwd, top);
    var q :| q in FilesUnder(nodes, p) && s == Under(top, q[|p|..]);
    var rel := q[|p|..];
    assert ValidNames(rel) by {
      assert ValidNames(q);
      forall i | 0 <= i < |rel| ensures ValidName(rel[i]) {
        assert rel[i] == q[|p| + i];
      }
    }
    ResolveUnder(cwd, top, rel);
    assert p + rel == q;
  }

  /** Every file below a non-empty `top` has its key, which names it. */
  lemma FileHasKey(nodes: Tree, cwd: Path, top: string, q: Path)
    requires WellFormed(nodes) && top != ""
    requires q in FilesUnder(nodes, Resolve(cwd, top))
    ensures Under(top, q[|Resolve(cwd, top)|..]) in FileKeys(nodes, cwd, top)
    ensures Resolve(cwd, Under(top, q[|Resolve(cwd, top)|..])) == q
  {
    var p := Resolve(cwd, top);
    var rel := q[|p|..];
    assert ValidNames(rel) by {
      assert ValidNames(q);
      forall i | 0 <= i < |rel| ensures ValidName(rel[i]) {
        assert rel[i] == q[|p| + i];
      }
    }
    ResolveUnder(cwd, top, rel);
    assert p + rel == q;
  }

  /** Each of a list of file keys of `top` names a file below it. */
  lemma KeysAreFiles(nodes: Tree, cwd: Path, top: string, files: seq<string>)
    requires WellFormed(nodes) && Elements(files) == FileKeys(nodes, cwd, top)
    ensures forall m :: 0 <= m < |files| ==> IsFile(nodes, Resolve(cwd, files[m]))
    ensures top == "" ==> files == []
  {
    KeysNameFiles(nodes, cwd, top, files);
  }

  /** The files a list of exactly the file keys of `top` names: each key
      names a file below `top`, and each such file is named by a key. */
  lemma KeysNameFiles(nodes: Tree, cwd: Path, top: string, files: seq<string>)
    requires WellFormed(nodes) && Elements(files) == FileKeys(nodes, cwd, top)
    ensures forall m :: 0 <= m < |files| ==> Resolve(cwd, files[m]) in FilesUnder(nodes, Resolve(cwd, top))
    ensures top != "" ==> forall q :: q in FilesUnder(nodes, Resolve(cwd, top)) ==>
              exists m :: 0 <= m < |files| && Resolve(cwd, files[m]) == q
    ensures top == "" ==> files == []
  {
    assert forall m :: 0 <= m < |files| ==> files[m] in Elements(files);
    if |files| > 0 {
      FileKeyResolves(nodes, cwd, top, files[0]);
    }
    forall m | 0 <= m < |files| ensures Resolve(cwd, files[m]) in FilesUnder(nodes, Resolve(cwd, top)) {
      FileKeyResolves(nodes, cwd, top, files[m]);
    }
    if top != "" {
      forall q | q in FilesUnder(nodes, Resolve(cwd, top))
        ensures exists m :: 0 <= m < |files| && Resolve(cwd, files[m]) == q
      {
        FileHasKey(nodes, cwd, top, q);
        var s := Under(top, q[|Resolve(cwd, top)|..]);
        assert s in Elements(files);
        var m :| 0 <= m < |files| && files[m] == s;
      }
    }
  }

  /** `os.path.isfile(path)`. */
  predicate IsFilePath(nodes: Tree, cwd: Path, path: string) {
    path != "" && IsFile(nodes, Resolve(cwd, path))
  }

  /** `os.path.isdir(path)`. */
  predicate IsDirPath(nodes: Tree, cwd: Path, path: string) {
    path != "" && IsDirectory(nodes, Resolve(cwd, path))
  }

  /** Joining a walked directory path with one of its file names gives a
      file key of the walk's top. */
  lemma WalkedFileHasKey(nodes: Tree, cwd: Path, top: string, step: WalkStep, f: string)
    requires WellFormed(nodes) && top != ""
    requires StepOf(nodes, top, Resolve(cwd, top), step) && f in step.filenames
    ensures Join(step.dirpath, f) in FileKeys(nodes, cwd, top)
  {
    var p := Resolve(cwd, top);
    var q := p + step.rel + [f];
    UnderAppend(top, step.rel, f);
    assert q[..|p|] == p && q[|p|..] == step.rel + [f];
    assert q in FilesUnder(nodes, p);
  }

  /** Every file key of the walk's top is some walked directory path joined
      with one of its file names. */
  lemma FileKeyIsWalked(nodes: Tree, cwd: Path, top: string, steps: seq<WalkStep>, s: string)
    requires WellFormed(nodes) && WalkOf(nodes, cwd, top, steps)
    requires s in FileKeys(nodes, cwd, top)
    ensures exists i, f :: 0 <= i < |steps| && f in steps[i].filenames && s == Join(steps[i].dirpath, f)
  {
    var p := Resolve(cwd, top);
    var q :| q in FilesUnder(nodes, p) && s == Under(top, q[|p|..]);
    AncestorIsDirectory(nodes, q, |p|);
    assert q[..|p|] == p;
    var d := q[..|q| - 1];
    var f := q[|q| - 1];
    ParentIsDirectory(nodes, q);
    assert d[..|p|] == q[..|p|];
    var i :| 0 <= i < |steps| && p + steps[i].rel == d;
    var rel := steps[i].rel;
    LastStep(p, q, rel);
    assert f in steps[i].filenames;
    UnderAppend(top, rel, f);
  }

  /** A location one name below `p + rel` splits into those parts. */
  lemma LastStep(p: Path, q: Path, rel: Path)
    requires |q| > |p| && q[..|p|] == p && p + rel == q[..|q| - 1]
    ensures p + rel + [q[|q| - 1]] == q && q[|p|..] == rel + [q[|q| - 1]]
  {
  }

  /** `files` holds only file keys, and every file of the first `i` steps. */
  ghost predicate Collected(nodes: Tree, cwd: Path, top: string, steps: seq<WalkStep>, i: nat, files: seq<string>) {
    && (forall m :: 0 <= m < |files| ==> files[m] in FileKeys(nodes, cwd, top))
    && (forall k, f :: 0 <= k < i && k < |steps| && f in steps[k].filenames ==> Join(steps[k].dirpath, f) in files)
  }

  /** Appending one walked directory's file keys keeps every key a file key
      and adds that directory's files. */
  lemma StepKeysAdded(nodes: Tree, cwd: Path, top: string, steps: seq<WalkStep>, i: nat,
                      before: seq<string>, after: seq<string>)
    requires WellFormed(nodes) && WalkOf(nodes, cwd, top, steps) && i < |steps|
    requires Collected(nodes, cwd, top, steps, i, before)
    requires after == before + JoinEach(steps[i].dirpath, steps[i].filenames)
    ensures Collected(nodes, cwd, top, steps, i + 1, after)
  {
    StepKeysAreFileKeys(nodes, cwd, top, steps[i], before, after);
    StepKeysCover(steps, i, before, after);
  }

  lemma StepKeysAreFileKeys(nodes: Tree, cwd: Path, top: string, step: WalkStep,
                            before: seq<string>, after: seq<string>)
    requires WellFormed(nodes) && top != "" && StepOf(nodes, top, Resolve(cwd, top), step)
    requires forall m :: 0 <= m < |before| ==> before[m] in FileKeys(nodes, cwd, top)
    requires after == before + JoinEach(step.dirpath, step.filenames)
    ensures forall m :: 0 <= m < |after| ==> after[m] in FileKeys(nodes, cwd, top)
  {
    forall m | |before| <= m < |after| ensures after[m] in FileKeys(nodes, cwd, top) {
      WalkedFileHasKey(nodes, cwd, top, step, step.filenames[m - |before|]);
    }
  }

  lemma StepKeysCover(steps: seq<WalkStep>, i: nat, before: seq<string>, after: seq<string>)
    requires i < |steps|
    requires forall k, f :: 0 <= k < i && f in steps[k].filenames ==> Join(steps[k].dirpath, f) in before
    requires after == before + JoinEach(steps[i].dirpath, steps[i].filenames)
    ensures forall k, f :: 0 <= k < i + 1 && f in steps[k].filenames ==> Join(steps[k].dirpath, f) in after
  {
    var step := steps[i];
    forall k, f | 0 <= k < i + 1 && f in steps[k].filenames ensures Join(steps[k].dirpath, f) in after {
      if k == i {
        var n :| 0 <= n < |step.filenames| && step.filenames[n] == f;
        assert after[|before| + n] == Join(step.dirpath, f);
      } else {
        var m :| 0 <= m < |before| && before[m] == Join(steps[k].dirpath, f);
        assert after[m] == before[m];
      }
    }
  }

  /** Keys that are all file keys, and include every walked directory path
      joined with each of its file names, are exactly the file keys. */
  lemma WalkedAreAllFileKeys(nodes: Tree, cwd: Path, top: string, steps: seq<WalkStep>, files: seq<string>)
    requires WellFormed(nodes) && WalkOf(nodes, cwd, top, steps)
    requires Collected(nodes, cwd, top, steps, |steps|, files)
    ensures Elements(files) == FileKeys(nodes, cwd, top)
  {
    forall s | s in FileKeys(nodes, cwd, top) ensures s in files {
      FileKeyIsWalked(nodes, cwd, top, steps, s);
    }
  }

  /** `dir` joined with each of `names`, in order. */
  function JoinEach(dir: string, names: seq<string>): (keys: seq<string>)
    ensures |keys| == |names|
    ensures forall k :: 0 <= k < |names| ==> keys[k] == Join(dir, names[k])
  {
    if names == [] then [] else JoinEach(dir, names[..|names| - 1]) + [Join(dir, names[|names| - 1])]
  }

  lemma JoinEachStep(dir: string, names: seq<string>, j: nat)
    requires j < |names|
    ensures JoinEach(dir, names[..j + 1]) == JoinEach(dir, names[..j]) + [Join(dir, names[j])]
  {
    assert names[..j + 1][..j] == names[..j];
  }

  /** The inner loop of `_all_files_in_dir`: append `dir` joined with each of
      `names`, in order. */
  method AppendJoined(files: seq<string>, dir: string, names: seq<string>) returns (out: seq<string>)
    ensures out == files + JoinEach(dir, names)
  {
    out := files;
    for j := 0 to |names|
      invariant out == files + JoinEach(dir, names[..j])
    {
      JoinEachStep(dir, names, j);
      out := out + [Join(dir, names[j])];
    }
    assert names[..|names|] == names;
  }

  /** `_all_files_in_dir(path)`: the key of every file below `path`, at any
      depth, in walk order. */
  method AllFilesInDir(fs: FileSystem, path: string) returns (files: seq<string>)
    requires fs.Valid()
    ensures Elements(files) == FileKeys(fs.nodes, fs.cwd, path)
  {
    var steps := Walk(fs, path);
    files := [];
    for i := 0 to |steps|
      invariant Collected(fs.nodes, fs.cwd, path, steps, i, files)
    {
      var step := steps[i];
      ghost var before := files;
      files := AppendJoined(files, step.dirpath, step.filenames);
      StepKeysAdded(fs.nodes, fs.cwd, path, steps, i, before, files);
    }
    WalkedAreAllFileKeys(fs.nodes, fs.cwd, path, steps, files);
  }
}
