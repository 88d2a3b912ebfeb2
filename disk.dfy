/** The filesystem the archiver reads and rearranges, and the operating-system
    calls it makes on it (`os.listdir`, `os.walk`, `os.makedirs`, `shutil.move`).

    A filesystem is a map from absolute locations to entries. It is well formed
    when the root is a directory and every other entry sits inside a directory
    that is itself an entry. Listing order is not specified by the operating
    system, so the listing methods pick entries in an arbitrary order. */
module Disk {
  import opened Paths

  /** A calendar month, January being 1. */
  type Month = m: nat | 1 <= m <= 12 witness 1

  /** A file with its last-access time in whole seconds and the year and month
      of that access in local time, or a directory. */
  datatype Node = File(atime: int, year: nat, month: Month) | Directory

  type Tree = map<Path, Node>

  ghost predicate WellFormed(nodes: Tree) {
    && [] in nodes && nodes[[]].Directory?
    && (forall q, c :: q + [c] in nodes ==> q in nodes && nodes[q].Directory?)
    && (forall q :: q in nodes ==> ValidNames(q))
  }

  predicate IsFile(nodes: Tree, p: Path) {
    p in nodes && nodes[p].File?
  }

  predicate IsDirectory(nodes: Tree, p: Path) {
    p in nodes && nodes[p].Directory?
  }

  predicate Distinct<T(==)>(s: seq<T>) {
    forall i, j :: 0 <= i < j < |s| ==> s[i] != s[j]
  }

  /** Every entry strictly inside `p`. */
  ghost function Descendants(nodes: Tree, p: Path): set<Path> {
    set q | q in nodes && StrictPrefix(p, q)
  }

  /** Every file strictly inside `p`, at any depth. */
  ghost function FilesUnder(nodes: Tree, p: Path): set<Path> {
    set q | q in nodes && nodes[q].File? && StrictPrefix(p, q)
  }

  /** Every ancestor of an entry is a directory. */
  lemma {:induction false} AncestorIsDirectory(nodes: Tree, q: Path, i: nat)
    requires WellFormed(nodes) && q in nodes && i < |q|
    ensures IsDirectory(nodes, q[..i])
    decreases |q| - i
  {
    if i + 1 == |q| {
      ParentIsDirectory(nodes, q);
      assert q[..|q| - 1] == q[..i];
    } else {
      AncestorIsDirectory(nodes, q, i + 1);
      ParentIsDirectory(nodes, q[..i + 1]);
      assert q[..i + 1][..i] == q[..i];
    }
  }

  /** The parent of every entry but the root is a directory. */
  lemma ParentIsDirectory(nodes: Tree, q: Path)
    requires WellFormed(nodes) && q in nodes && q != []
    ensures IsDirectory(nodes, q[..|q| - 1])
  {
    assert q == q[..|q| - 1] + [q[|q| - 1]];
  }

  /** Parent closure stated entry by entry gives well-formedness. */
  lemma ParentsGiveWellFormed(nodes: Tree)
    requires [] in nodes && nodes[[]].Directory?
    requires forall q :: q in nodes && q != [] ==> q[..|q| - 1] in nodes && nodes[q[..|q| - 1]].Directory?
    requires forall q :: q in nodes ==> ValidNames(q)
    ensures WellFormed(nodes)
  {
    forall q, c | q + [c] in nodes ensures q in nodes && nodes[q].Directory? {
      assert (q + [c])[..|q + [c]| - 1] == q;
    }
  }

  /** A child of a well-formed tree has a valid name. */
  lemma ChildNameValid(nodes: Tree, p: Path, c: string)
    requires WellFormed(nodes) && p + [c] in nodes
    ensures ValidName(c)
  {
    assert ValidNames(p + [c]);
    assert (p + [c])[|p|] == c;
  }

  /** A file has nothing inside it. */
  lemma NothingInsideFile(nodes: Tree, p: Path)
    requires WellFormed(nodes) && IsFile(nodes, p)
    ensures Descendants(nodes, p) == {} && FilesUnder(nodes, p) == {}
  {
    forall q | q in nodes && StrictPrefix(p, q)
      ensures false
    {
      AncestorIsDirectory(nodes, q, |p|);
    }
  }

  /** An entry with a file below it is a directory. */
  lemma HoldingFileIsDirectory(nodes: Tree, p: Path, q: Path)
    requires WellFormed(nodes) && p in nodes && q in FilesUnder(nodes, p)
    ensures IsDirectory(nodes, p)
  {
    AncestorIsDirectory(nodes, q, |p|);
  }

  /** An entry inside `p` has strictly fewer entries inside it than `p` does. */
  lemma ChildHasFewerDescendants(nodes: Tree, p: Path, c: string)
    requires p + [c] in nodes
    ensures |Descendants(nodes, p + [c])| < |Descendants(nodes, p)|
  {
    var inner := Descendants(nodes, p + [c]);
    var outer := Descendants(nodes, p);
    forall q | q in inner ensures q in outer {
      assert q[..|p|] == (p + [c])[..|p|];
    }
    assert p + [c] in outer - inner;
    assert outer == inner + (outer - inner);
    assert |outer| == |inner| + |outer - inner|;
  }

  /** A directory strictly below `p` is, or is inside, a directory directly in `p`. */
  lemma EntryBelowIsInChildDirectory(nodes: Tree, p: Path, q: Path)
    requires WellFormed(nodes) && IsDirectory(nodes, q) && IsPrefix(p, q) && q != p
    ensures IsDirectory(nodes, p + [q[|p|]])
  {
    var child := q[..|p| + 1];
    assert child == p + [q[|p|]];
    if |q| > |p| + 1 {
      AncestorIsDirectory(nodes, q, |p| + 1);
    } else {
      assert q == child;
    }
  }

  /** A file inside `p` is either directly in `p` or inside one of the
      directories directly in `p`. */
  lemma FileUnderChild(nodes: Tree, p: Path, q: Path)
    requires WellFormed(nodes) && q in FilesUnder(nodes, p)
    ensures p + [q[|p|]] in nodes
    ensures |q| == |p| + 1 || (IsDirectory(nodes, p + [q[|p|]]) && q in FilesUnder(nodes, p + [q[|p|]]))
  {
    var child := q[..|p| + 1];
    assert child == p + [q[|p|]];
    if |q| > |p| + 1 {
      AncestorIsDirectory(nodes, q, |p| + 1);
    } else {
      assert q == child;
    }
  }

  // ---------------------------------------------------------------------------
  // The locations a path string passes through
  // ---------------------------------------------------------------------------

  /** Where the components of a path string start: the root for an absolute
      string, the working directory otherwise. */
  function StartOf(cwd: Path, s: string): Path {
    if IsAbsolute(s) then [] else cwd
  }

  /** The locations reached by applying `parts` one component at a time from
      `base`, the start and the end included. A `..` after a name passes
      through the location of that name before stepping back out of it. */
  function Visited(base: Path, parts: seq<string>): (v: set<Path>)
    ensures base in v && ResolveFrom(base, parts) in v
    decreases |parts|
  {
    if parts == [] then {base}
    else Visited(base, parts[..|parts| - 1]) + {ResolveFrom(base, parts)}
  }

  /** The locations the path string `s` passes through. */
  function VisitedBy(cwd: Path, s: string): set<Path> {
    Visited(StartOf(cwd, s), Split(s))
  }

  /** Every location on the way to one that the components pass through is
      either passed through as well or on the way to the start. */
  lemma {:induction false} VisitedPrefixClosed(base: Path, parts: seq<string>, q: Path, i: nat)
    requires q in Visited(base, parts) && i <= |q|
    ensures q[..i] in Visited(base, parts) || (i <= |base| && q[..i] == base[..i])
    decreases |parts|
  {
    if parts == [] {
      assert q == base;
    } else {
      var init := parts[..|parts| - 1];
      var prev := ResolveFrom(base, init);
      var x := parts[|parts| - 1];
      if q in Visited(base, init) {
        VisitedPrefixClosed(base, init, q, i);
      } else if x == ".." {
        if prev != [] {
          assert q[..i] == prev[..i];
          VisitedPrefixClosed(base, init, prev, i);
        }
      } else if i < |q| {
        assert q[..i] == prev[..i];
        VisitedPrefixClosed(base, init, prev, i);
      } else {
        assert q[..i] == q;
      }
    }
  }

  /** Components applied one after the other pass through the locations of
      the first ones and then those of the rest from where the first end. */
  lemma {:induction false} VisitedConcat(base: Path, xs: seq<string>, ys: seq<string>, q: Path)
    requires q in Visited(base, xs + ys)
    ensures q in Visited(base, xs) || q in Visited(ResolveFrom(base, xs), ys)
    decreases |ys|
  {
    if ys == [] {
      assert xs + ys == xs;
    } else {
      var ys0 := ys[..|ys| - 1];
      assert (xs + ys)[..|xs + ys| - 1] == xs + ys0;
      ResolveFromConcat(base, xs, ys);
      if q in Visited(base, xs + ys0) {
        VisitedConcat(base, xs, ys0, q);
      }
    }
  }

  /** Going down by valid names passes only through the locations between the
      start and the end. */
  lemma {:induction false} VisitedDown(p: Path, ys: seq<string>, q: Path)
    requires ValidNames(ys) && q in Visited(p, ys)
    ensures |p| <= |q| <= |p| + |ys| && q == (p + ys)[..|q|]
    decreases |ys|
  {
    if ys != [] {
      var ys0 := ys[..|ys| - 1];
      assert (p + ys)[..|p + ys0|] == p + ys0;
      if q in Visited(p, ys0) {
        VisitedDown(p, ys0, q);
        assert (p + ys)[..|q|] == (p + ys0)[..|q|];
      } else {
        assert ".." !in ys;
        ResolveFromNoParent(p, ys);
        NamesOfValid(ys);
        assert q == p + ys;
      }
    } else {
      assert p + ys == p;
    }
  }

  /** A string that continues another by valid names passes through the
      locations of the other and then down by those names. */
  lemma VisitedThenDown(cwd: Path, s: string, t: string, ys: seq<string>, q: Path)
    requires Split(t) == Split(s) + ys && IsAbsolute(t) == IsAbsolute(s) && ValidNames(ys)
    requires q in VisitedBy(cwd, t)
    ensures || q in VisitedBy(cwd, s)
            || (|Resolve(cwd, s)| <= |q| <= |Resolve(cwd, s)| + |ys| && q == (Resolve(cwd, s) + ys)[..|q|])
  {
    VisitedConcat(StartOf(cwd, s), Split(s), ys, q);
    if q !in VisitedBy(cwd, s) {
      VisitedDown(Resolve(cwd, s), ys, q);
    }
  }

  /** The components of a split string only ever pass through valid names. */
  lemma {:induction false} VisitedValid(base: Path, parts: seq<string>, q: Path)
    requires ValidNames(base) && forall i :: 0 <= i < |parts| ==> '/' !in parts[i]
    requires q in Visited(base, parts)
    ensures ValidNames(q)
    decreases |parts|
  {
    if parts != [] {
      var init := parts[..|parts| - 1];
      if q in Visited(base, init) {
        VisitedValid(base, init, q);
      } else {
        ResolveFromValid(base, parts);
      }
    }
  }

  /** Creating every missing location a path string passes through, when none
      of those already present is a file, keeps the tree well formed. */
  lemma VisitedWellFormed(nodes: Tree, cwd: Path, s: string)
    requires WellFormed(nodes) && IsDirectory(nodes, cwd)
    requires forall q :: q in VisitedBy(cwd, s) && q in nodes ==> nodes[q].Directory?
    ensures WellFormed(nodes + map q | q in VisitedBy(cwd, s) && q !in nodes :: Directory)
  {
    var base := StartOf(cwd, s);
    var v := VisitedBy(cwd, s);
    var next := nodes + map q | q in v && q !in nodes :: Directory;
    assert ValidNames(base) by {
      assert base in nodes;
    }
    forall q | q in next && q != []
      ensures q[..|q| - 1] in next && next[q[..|q| - 1]].Directory?
    {
      if q in nodes {
        ParentIsDirectory(nodes, q);
      } else {
        VisitedPrefixClosed(base, Split(s), q, |q| - 1);
        assert base[..|base|] == base;
        if q[..|q| - 1] !in v {
          AncestorIsDirectory(nodes, base, |q| - 1);
        }
      }
    }
    forall q | q in next ensures ValidNames(q) {
      if q !in nodes {
        VisitedValid(base, Split(s), q);
      }
    }
    ParentsGiveWellFormed(next);
  }

  /** When every missing location a path string passes through lies on the
      way to where it ends, the locations created are exactly the missing
      directories on the way to its end. */
  lemma VisitedMadeIsWay(nodes: Tree, cwd: Path, s: string)
    requires WellFormed(nodes) && IsDirectory(nodes, cwd)
    requires forall q :: q in VisitedBy(cwd, s) && q !in nodes ==> IsPrefix(q, Resolve(cwd, s))
    ensures (map q | q in VisitedBy(cwd, s) && q !in nodes :: Directory)
         == (map q | q in Prefixes(Resolve(cwd, s)) && q !in nodes :: Directory)
  {
    var p := Resolve(cwd, s);
    forall q | q in Prefixes(p) && q !in nodes
      ensures q in VisitedBy(cwd, s)
    {
      MissingPrefixVisited(nodes, StartOf(cwd, s), Split(s), q);
    }
  }

  /** A missing location on the way to where the components end is one they
      pass through, since everything on the way to an existing start exists. */
  lemma MissingPrefixVisited(nodes: Tree, base: Path, parts: seq<string>, q: Path)
    requires WellFormed(nodes) && base in nodes
    requires |q| <= |ResolveFrom(base, parts)| && q == ResolveFrom(base, parts)[..|q|] && q !in nodes
    ensures q in Visited(base, parts)
  {
    VisitedPrefixClosed(base, parts, ResolveFrom(base, parts), |q|);
    assert base[..|base|] == base;
    if q !in Visited(base, parts) {
      AncestorIsDirectory(nodes, base, |q|);
    }
  }

  class FileSystem {
    var nodes: Tree
    /** The working directory, against which relative strings resolve. */
    const cwd: Path

    ghost predicate Valid()
      reads this
    {
      WellFormed(nodes) && IsDirectory(nodes, cwd)
    }

    constructor (nodes: Tree, cwd: Path)
      requires WellFormed(nodes) && IsDirectory(nodes, cwd)
      ensures Valid() && this.nodes == nodes && this.cwd == cwd
    {
      this.nodes := nodes;
      this.cwd := cwd;
    }

    /** `os.makedirs(name, exist_ok=True)`: each missing prefix of `name` is
        created in turn, so every location its components pass through -- one
        that a later `..` steps back out of included -- becomes a directory;
        a file at any of them would raise. */
    method MakeDirs(name: string)
      requires Valid() && name != ""
      requires forall q :: q in VisitedBy(cwd, name) && q in nodes ==> nodes[q].Directory?
      modifies this
      ensures Valid()
      ensures nodes == old(nodes) + map q | q in VisitedBy(cwd, name) && q !in old(nodes) :: Directory
      ensures IsDirectory(nodes, Resolve(cwd, name))
    {
      VisitedWellFormed(nodes, cwd, name);
      nodes := nodes + map q | q in VisitedBy(cwd, name) && q !in nodes :: Directory;
    }

    /** `shutil.move(src, dst)` on one volume: a rename, which replaces a file
        already at `dst`. */
    method Move(src: string, dst: string)
      requires Valid()
      requires IsFile(nodes, Resolve(cwd, src))
      requires Resolve(cwd, dst) != [] && IsDirectory(nodes, Parent(Resolve(cwd, dst)))
      requires !IsDirectory(nodes, Resolve(cwd, dst))
      modifies this
      ensures Valid()
      ensures nodes == (old(nodes) - {Resolve(cwd, src)})[Resolve(cwd, dst) := old(nodes)[Resolve(cwd, src)]]
    {
      var s := Resolve(cwd, src);
      var d := Resolve(cwd, dst);
      ResolveValid(cwd, dst);
      var next := (nodes - {s})[d := nodes[s]];
      forall q | q in next && q != []
        ensures q[..|q| - 1] in next && next[q[..|q| - 1]].Directory?
      {
        if q != d {
          assert q in nodes;
          ParentIsDirectory(nodes, q);
        }
      }
      ParentsGiveWellFormed(next);
      nodes := next;
    }
  }

  function Parent(p: Path): Path
    requires p != []
  {
    p[..|p| - 1]
  }

  function Prefixes(p: Path): (r: set<Path>)
    ensures forall q :: q in r <==> |q| <= |p| && q == p[..|q|]
  {
    set i | 0 <= i <= |p| :: p[..i]
  }

  /** The names directly inside `p`. */
  function ChildNames(nodes: Tree, p: Path): (names: set<string>)
    ensures forall c :: c in names <==> p + [c] in nodes
  {
    var names := set q | q in nodes && |q| == |p| + 1 && q[..|p|] == p :: q[|p|];
    assert forall c :: p + [c] in nodes ==> (p + [c])[..|p|] == p && (p + [c])[|p|] == c;
    assert forall q :: |q| == |p| + 1 && q[..|p|] == p ==> q == p + [q[|p|]];
    names
  }

  /** `os.listdir` of a directory: every name directly inside it, once each. */
  method ListDir(fs: FileSystem, p: Path) returns (names: seq<string>)
    requires fs.Valid() && IsDirectory(fs.nodes, p)
    ensures forall c :: c in names <==> p + [c] in fs.nodes
    ensures Distinct(names)
  {
    var remaining := ChildNames(fs.nodes, p);
    ghost var all := remaining;
    names := [];
    while remaining != {}
      invariant forall c :: c in names || c in remaining <==> c in all
      invariant forall c :: c in names ==> c !in remaining
      invariant Distinct(names)
      decreases remaining
    {
      var c :| c in remaining;
      names := names + [c];
      remaining := remaining - {c};
    }
  }

  /** One directory visited by `os.walk`: the path string it yields for it, the
      directory's location relative to the walk's top, and the names of the
      files directly in it (the walkers here ignore the sub-directory names). */
  datatype WalkStep = WalkStep(dirpath: string, rel: Path, filenames: seq<string>)

  /** A step is what `os.walk` yields for the directory `top + rel`. */
  ghost predicate StepOf(nodes: Tree, top: string, p: Path, s: WalkStep) {
    && ValidNames(s.rel)
    && IsDirectory(nodes, p + s.rel)
    && s.dirpath == Under(top, s.rel)
    && (forall f :: f in s.filenames <==> IsFile(nodes, p + s.rel + [f]))
    && Distinct(s.filenames)
  }

  predicate IsPrefix(p: Path, q: Path) {
    |p| <= |q| && q[..|p|] == p
  }

  /** What `os.walk(top)` yields: nothing unless `top` names a directory (the
      empty string names none), and then one step for each directory inside it
      (itself included), once each. */
  ghost predicate WalkOf(nodes: Tree, cwd: Path, top: string, steps: seq<WalkStep>) {
    var p := Resolve(cwd, top);
    if top == "" || !IsDirectory(nodes, p) then steps == []
    else
      && (forall i :: 0 <= i < |steps| ==> StepOf(nodes, top, p, steps[i]))
      && (forall i, j :: 0 <= i < j < |steps| ==> steps[i].rel != steps[j].rel)
      && (forall q :: IsDirectory(nodes, q) && IsPrefix(p, q) ==>
            exists i :: 0 <= i < |steps| && p + steps[i].rel == q)
  }

  /** `os.walk(top)`, top-down. */
  method Walk(fs: FileSystem, top: string) returns (steps: seq<WalkStep>)
    requires fs.Valid()
    ensures WalkOf(fs.nodes, fs.cwd, top, steps)
  {
    var p := Resolve(fs.cwd, top);
    if top == "" || !IsDirectory(fs.nodes, p) {
      return [];
    }
    assert p + [] == p;
    steps := WalkFrom(fs, top, p, []);
  }

  lemma AppendAssociates(p: Path, rel: Path, d: string)
    ensures p + (rel + [d]) == p + rel + [d]
  {
  }

  lemma TakeOneMore<T>(s: seq<T>, j: nat)
    requires j < |s|
    ensures s[..j + 1] == s[..j] + [s[j]]
  {
  }

  /** `steps` walks exactly the directories at or below `p + rel`, once each. */
  ghost predicate WalkBelow(nodes: Tree, top: string, p: Path, rel: Path, steps: seq<WalkStep>) {
    && (forall i :: 0 <= i < |steps| ==> StepOf(nodes, top, p, steps[i]) && IsPrefix(rel, steps[i].rel))
    && (forall i, j :: 0 <= i < j < |steps| ==> steps[i].rel != steps[j].rel)
    && (forall q :: IsDirectory(nodes, q) && IsPrefix(p + rel, q) ==>
          exists i :: 0 <= i < |steps| && p + steps[i].rel == q)
  }

  /** The steps of `os.walk` below `top + rel`, visiting `top + rel` first. */
  method WalkFrom(fs: FileSystem, top: string, p: Path, rel: Path) returns (steps: seq<WalkStep>)
    requires fs.Valid() && IsDirectory(fs.nodes, p + rel) && ValidNames(rel)
    ensures WalkBelow(fs.nodes, top, p, rel, steps)
    decreases |Descendants(fs.nodes, p + rel)|
  {
    var nodes := fs.nodes;
    var here := p + rel;
    var files, subdirs := ScanDir(fs, here);
    steps := [WalkStep(Under(top, rel), rel, files)];
    assert StepOf(nodes, top, p, steps[0]) by {
      forall f ensures f in files <==> IsFile(nodes, p + rel + [f]) {
        assert p + rel + [f] == here + [f];
      }
    }
    var j := 0;
    while j < |subdirs|
      invariant 0 <= j <= |subdirs|
      invariant WalkSoFar(nodes, top, p, rel, subdirs[..j], steps)
    {
      var d := subdirs[j];
      assert ValidName(d) by {
        assert here + [d] in nodes;
        assert (here + [d])[|here|] == d;
      }
      ChildHasFewerDescendants(nodes, here, d);
      AppendAssociates(p, rel, d);
      var sub := WalkFrom(fs, top, p, rel + [d]);
      TakeOneMore(subdirs, j);
      WalkSoFarExtend(nodes, top, p, rel, subdirs[..j], d, steps, sub);
      steps := steps + sub;
      j := j + 1;
    }
    assert subdirs[..j] == subdirs;
    WalkSoFarComplete(nodes, top, p, rel, subdirs, steps);
  }

  lemma WalkSoFarComplete(nodes: Tree, top: string, p: Path, rel: Path, subdirs: seq<string>, steps: seq<WalkStep>)
    requires WellFormed(nodes)
    requires WalkSoFar(nodes, top, p, rel, subdirs, steps)
    requires forall d :: IsDirectory(nodes, p + rel + [d]) ==> d in subdirs
    ensures WalkBelow(nodes, top, p, rel, steps)
  {
    var here := p + rel;
    forall q | IsDirectory(nodes, q) && IsPrefix(here, q)
      ensures exists i :: 0 <= i < |steps| && p + steps[i].rel == q
    {
      if q != here {
        EntryBelowIsInChildDirectory(nodes, here, q);
      }
    }
  }

  /** The names directly in a directory, split into files and sub-directories
      as `os.walk` does. */
  method ScanDir(fs: FileSystem, here: Path) returns (files: seq<string>, subdirs: seq<string>)
    requires fs.Valid() && IsDirectory(fs.nodes, here)
    ensures forall f :: f in files <==> IsFile(fs.nodes, here + [f])
    ensures forall d :: d in subdirs <==> IsDirectory(fs.nodes, here + [d])
    ensures Distinct(files) && Distinct(subdirs)
  {
    var nodes := fs.nodes;
    var names := ListDir(fs, here);
    files, subdirs := [], [];
    var k := 0;
    while k < |names|
      invariant 0 <= k <= |names|
      invariant forall f :: f in files ==> f in names[..k] && IsFile(nodes, here + [f])
      invariant forall d :: d in subdirs ==> d in names[..k] && IsDirectory(nodes, here + [d])
      invariant forall i :: 0 <= i < k ==> names[i] in files || names[i] in subdirs
      invariant Distinct(files) && Distinct(subdirs)
    {
      var c := names[k];
      if nodes[here + [c]].Directory? {
        subdirs := subdirs + [c];
      } else {
        files := files + [c];
      }
      k := k + 1;
    }
    assert names[..k] == names;
  }

  /** What `WalkFrom` has collected after walking the sub-directories `done` of
      `p + rel`: the step for `p + rel` first, then steps only for directories
      below `done`, each once, and every directory there covered. */
  ghost predicate WalkSoFar(nodes: Tree, top: string, p: Path, rel: Path, done: seq<string>, steps: seq<WalkStep>) {
    && |steps| >= 1 && steps[0].rel == rel
    && (forall i :: 0 <= i < |steps| ==> StepOf(nodes, top, p, steps[i]) && IsPrefix(rel, steps[i].rel))
    && (forall i :: 1 <= i < |steps| ==> |steps[i].rel| > |rel| && steps[i].rel[|rel|] in done)
    && (forall i, i' :: 0 <= i < i' < |steps| ==> steps[i].rel != steps[i'].rel)
    && (forall q :: (IsDirectory(nodes, q) && IsPrefix(p + rel, q) &&
                     (q == p + rel || q[|p + rel|] in done)) ==>
          exists i :: 0 <= i < |steps| && p + steps[i].rel == q)
  }

  lemma WalkSoFarExtend(nodes: Tree, top: string, p: Path, rel: Path, done: seq<string>, d: string,
                        steps: seq<WalkStep>, sub: seq<WalkStep>)
    requires WalkSoFar(nodes, top, p, rel, done, steps)
    requires d !in done
    requires WalkBelow(nodes, top, p, rel + [d], sub)
    ensures WalkSoFar(nodes, top, p, rel, done + [d], steps + sub)
  {
    ExtendBelow(nodes, top, p, rel, done, d, steps, sub);
    ExtendDistinct(nodes, top, p, rel, done, d, steps, sub);
    ExtendCovers(nodes, top, p, rel, done, d, steps, sub);
  }

  lemma ExtendBelow(nodes: Tree, top: string, p: Path, rel: Path, done: seq<string>, d: string,
                    steps: seq<WalkStep>, sub: seq<WalkStep>)
    requires WalkSoFar(nodes, top, p, rel, done, steps)
    requires WalkBelow(nodes, top, p, rel + [d], sub)
    ensures forall i :: 0 <= i < |steps + sub| ==>
              StepOf(nodes, top, p, (steps + sub)[i]) && IsPrefix(rel, (steps + sub)[i].rel)
    ensures forall i :: 1 <= i < |steps + sub| ==>
              |(steps + sub)[i].rel| > |rel| && (steps + sub)[i].rel[|rel|] in done + [d]
  {
    var all := steps + sub;
    forall i | |steps| <= i < |all|
      ensures StepOf(nodes, top, p, all[i]) && IsPrefix(rel, all[i].rel)
      ensures |all[i].rel| > |rel| && all[i].rel[|rel|] == d
    {
      var r := sub[i - |steps|].rel;
      assert all[i].rel == r;
      assert IsPrefix(rel + [d], r);
      assert r[..|rel| + 1][..|rel|] == r[..|rel|];
    }
  }

  lemma ExtendDistinct(nodes: Tree, top: string, p: Path, rel: Path, done: seq<string>, d: string,
                       steps: seq<WalkStep>, sub: seq<WalkStep>)
    requires WalkSoFar(nodes, top, p, rel, done, steps)
    requires d !in done
    requires WalkBelow(nodes, top, p, rel + [d], sub)
    ensures forall i, i' :: 0 <= i < i' < |steps + sub| ==> (steps + sub)[i].rel != (steps + sub)[i'].rel
  {
    var all := steps + sub;
    forall i, i' | 0 <= i < i' < |all| ensures all[i].rel != all[i'].rel {
      if i < |steps| && |steps| <= i' {
        var r := sub[i' - |steps|].rel;
        assert all[i'].rel == r;
        assert IsPrefix(rel + [d], r);
        assert r[|rel|] == d;
        if i > 0 {
          assert all[i].rel[|rel|] in done;
        }
      } else if |steps| <= i {
        assert all[i] == sub[i - |steps|] && all[i'] == sub[i' - |steps|];
      }
    }
  }

  lemma ExtendCovers(nodes: Tree, top: string, p: Path, rel: Path, done: seq<string>, d: string,
                     steps: seq<WalkStep>, sub: seq<WalkStep>)
    requires WalkSoFar(nodes, top, p, rel, done, steps)
    requires WalkBelow(nodes, top, p, rel + [d], sub)
    ensures forall q :: (IsDirectory(nodes, q) && IsPrefix(p + rel, q) &&
                         (q == p + rel || q[|p + rel|] in done + [d])) ==>
              exists i :: 0 <= i < |steps + sub| && p + (steps + sub)[i].rel == q
  {
    var all := steps + sub;
    var here := p + rel;
    forall q | IsDirectory(nodes, q) && IsPrefix(here, q) && (q == here || q[|here|] in done + [d])
      ensures exists i :: 0 <= i < |all| && p + all[i].rel == q
    {
      if q == here || q[|here|] in done {
        var i :| 0 <= i < |steps| && p + steps[i].rel == q;
        assert all[i] == steps[i];
      } else {
        assert q[|here|] == d;
        assert IsPrefix(p + (rel + [d]), q) by {
          assert q[..|here| + 1] == here + [d];
          assert p + (rel + [d]) == here + [d];
        }
        var i :| 0 <= i < |sub| && p + sub[i].rel == q;
        assert all[|steps| + i] == sub[i];
      }
    }
  }
}
