/** String paths as the archiver builds them, and how the operating system
    resolves them to a sequence of directory-entry names.

    - `Split` is Python's `str.split("/")` and `JoinAll` is `"/".join(...)`;
    - `Join` is `os.path.join` with two arguments and `Dirname` is `os.path.dirname`
      (both from `posixpath`);
    - `Resolve` turns a string into the absolute component path it names,
      starting from the working directory for a relative string. */
module Paths {

  /** An absolute location: the names of the directory entries from the root. */
  type Path = seq<string>

  /** A name that can be a directory entry: not empty, no separator, not `.` or `..`. */
  predicate ValidName(c: string) {
    c != "" && '/' !in c && c != "." && c != ".."
  }

  predicate ValidNames(p: Path) {
    forall i :: 0 <= i < |p| ==> ValidName(p[i])
  }

  predicate StrictPrefix(p: Path, q: Path) {
    |p| < |q| && q[..|p|] == p
  }

  /** A location strictly below a child of `p` lies strictly below `p`, in that child. */
  lemma StrictPrefixOfChild(p: Path, c: string, q: Path)
    requires StrictPrefix(p + [c], q)
    ensures StrictPrefix(p, q) && q[|p|] == c && q[|p|..] == [c] + q[|p| + 1..]
  {
    assert q[..|p|] == q[..|p| + 1][..|p|];
    assert q[|p|] == q[..|p| + 1][|p|];
  }

  /** A location followed by at least one more name lies strictly below it. */
  lemma StrictPrefixConcat(a: Path, b: Path, c: Path)
    requires |c| >= 1
    ensures StrictPrefix(a, a + b + c)
  {
    assert (a + b + c)[..|a|] == a;
  }

  // ---------------------------------------------------------------------------
  // str.split("/") and "/".join(...)
  // ---------------------------------------------------------------------------

  /** `s.split("/")`: the pieces between separators; never empty. */
  function Split(s: string): (parts: seq<string>)
    ensures |parts| >= 1
    ensures forall i :: 0 <= i < |parts| ==> '/' !in parts[i]
    decreases |s|
  {
    if s == [] then [""]
    else
      var init := Split(s[..|s| - 1]);
      if s[|s| - 1] == '/' then init + [""]
      else init[..|init| - 1] + [init[|init| - 1] + [s[|s| - 1]]]
  }

  /** `"/".join(parts)`. */
  function JoinAll(parts: seq<string>): string
    decreases |parts|
  {
    if |parts| == 0 then ""
    else if |parts| == 1 then parts[0]
    else JoinAll(parts[..|parts| - 1]) + "/" + parts[|parts| - 1]
  }

  /** A string without separator splits into itself. */
  lemma {:induction false} SplitNoSeparator(x: string)
    requires '/' !in x
    ensures Split(x) == [x]
    decreases |x|
  {
    if x != [] {
      var x0 := x[..|x| - 1];
      assert forall ch :: ch in x0 ==> ch in x;
      assert x[|x| - 1] in x;
      SplitNoSeparator(x0);
      assert x0 + [x[|x| - 1]] == x;
    }
  }

  /** Splitting at a separator splits both sides independently. */
  lemma {:induction false} SplitConcat(a: string, b: string)
    ensures Split(a + "/" + b) == Split(a) + Split(b)
    decreases |b|
  {
    var s := a + "/" + b;
    if b == [] {
      assert s[..|s| - 1] == a && s[|s| - 1] == '/';
      assert Split(s) == Split(a) + [""];
    } else {
      var b0 := b[..|b| - 1];
      var last := b[|b| - 1];
      assert s[..|s| - 1] == a + "/" + b0 && s[|s| - 1] == last;
      SplitConcat(a, b0);
      var xs := Split(a);
      var ys := Split(b0);
      var init := xs + ys;
      assert Split(s[..|s| - 1]) == init;
      if last == '/' {
        assert Split(b) == ys + [""];
        assert Split(s) == init + [""];
        AppendAssoc(xs, ys, "");
      } else {
        var e := ys[|ys| - 1] + [last];
        assert Split(b) == ys[..|ys| - 1] + [e];
        DropLastConcat(xs, ys);
        assert Split(s) == (xs + ys[..|ys| - 1]) + [e];
        AppendAssoc(xs, ys[..|ys| - 1], e);
      }
    }
  }

  lemma DropLastConcat<T>(xs: seq<T>, ys: seq<T>)
    requires |ys| >= 1
    ensures (xs + ys)[..|xs + ys| - 1] == xs + ys[..|ys| - 1]
    ensures (xs + ys)[|xs + ys| - 1] == ys[|ys| - 1]
  {
  }

  lemma AppendAssoc<T>(xs: seq<T>, ys: seq<T>, e: T)
    ensures (xs + ys) + [e] == xs + (ys + [e])
  {
  }

  /** `"/".join(s.split("/")) == s` for every string. */
  lemma {:induction false} JoinAllSplit(s: string)
    ensures JoinAll(Split(s)) == s
    decreases |s|
  {
    if s != [] {
      var s0 := s[..|s| - 1];
      var c := s[|s| - 1];
      LastOf(s);
      JoinAllSplit(s0);
      var init := Split(s0);
      if c == '/' {
        assert Split(s) == init + [""];
        DropLastAppend(init, "");
        assert JoinAll(init + [""]) == JoinAll(init) + "/" + "";
      } else if |init| == 1 {
        assert Split(s) == [init[0] + [c]];
      } else {
        var pre := init[..|init| - 1];
        var y := init[|init| - 1];
        assert Split(s) == pre + [y + [c]];
        DropLastAppend(pre, y + [c]);
        assert JoinAll(init) == JoinAll(pre) + "/" + y;
        assert JoinAll(pre + [y + [c]]) == JoinAll(pre) + "/" + (y + [c]);
        AppendAssoc(JoinAll(pre) + "/", y, c);
      }
    }
  }

  /** A non-empty sequence is its front followed by its last element. */
  lemma LastOf<T>(s: seq<T>)
    requires |s| >= 1
    ensures s == s[..|s| - 1] + [s[|s| - 1]]
  {
  }

  lemma DropLastAppend<T>(xs: seq<T>, e: T)
    ensures |xs + [e]| == |xs| + 1
    ensures (xs + [e])[..|xs|] == xs && (xs + [e])[|xs|] == e
  {
  }

  /** `"/".join` of names without separators splits back into those names. */
  lemma {:induction false} SplitJoinAll(parts: seq<string>)
    requires |parts| >= 1
    requires forall i :: 0 <= i < |parts| ==> '/' !in parts[i]
    ensures Split(JoinAll(parts)) == parts
    decreases |parts|
  {
    if |parts| == 1 {
      SplitNoSeparator(parts[0]);
    } else {
      var init := parts[..|parts| - 1];
      var x := parts[|parts| - 1];
      LastOf(parts);
      assert forall i :: 0 <= i < |init| ==> init[i] == parts[i];
      SplitJoinAll(init);
      assert JoinAll(parts) == JoinAll(init) + "/" + x;
      SplitConcat(JoinAll(init), x);
      SplitNoSeparator(x);
    }
  }

  /** `"/".join` of valid names is not empty and ends with the last name. */
  lemma {:induction false} JoinAllEnds(parts: seq<string>)
    requires |parts| >= 1 && ValidNames(parts)
    ensures |JoinAll(parts)| > 0 && JoinAll(parts)[|JoinAll(parts)| - 1] != '/'
    ensures JoinAll(parts)[0] != '/'
    decreases |parts|
  {
    var last := parts[|parts| - 1];
    assert last[|last| - 1] in last;
    if |parts| > 1 {
      JoinAllEnds(parts[..|parts| - 1]);
    } else {
      assert parts[0][0] in parts[0];
    }
  }

  // ---------------------------------------------------------------------------
  // os.path.join, os.path.dirname
  // ---------------------------------------------------------------------------

  predicate IsAbsolute(s: string) {
    |s| > 0 && s[0] == '/'
  }

  /** `os.path.join(a, b)`: an absolute `b` discards `a`; otherwise a separator
      is inserted unless `a` is empty or already ends with one. */
  function Join(a: string, b: string): string {
    if IsAbsolute(b) then b
    else if a == "" || a[|a| - 1] == '/' then a + b
    else a + "/" + b
  }

  /** `a` joined with each name of `rel` in turn, as `os.walk` builds the
      directory paths it yields. */
  function Under(a: string, rel: Path): string
    decreases |rel|
  {
    if rel == [] then a else Join(Under(a, rel[..|rel| - 1]), rel[|rel| - 1])
  }

  /** Index just after the last separator of `p`, or 0 when there is none
      (`p.rfind("/") + 1`). */
  function AfterLastSeparator(p: string): (i: nat)
    ensures i <= |p|
    ensures forall j :: i <= j < |p| ==> p[j] != '/'
    ensures i > 0 ==> p[i - 1] == '/'
    decreases |p|
  {
    if p == [] then 0
    else if p[|p| - 1] == '/' then |p|
    else AfterLastSeparator(p[..|p| - 1])
  }

  predicate AllSeparators(s: string) {
    forall j :: 0 <= j < |s| ==> s[j] == '/'
  }

  /** `s.rstrip("/")`. */
  function StripTrailingSeparators(s: string): string
    decreases |s|
  {
    if s != [] && s[|s| - 1] == '/' then StripTrailingSeparators(s[..|s| - 1]) else s
  }

  /** `os.path.dirname(p)`: everything up to the last separator, with trailing
      separators removed unless that leaves nothing but separators. */
  function Dirname(p: string): string {
    var head := p[..AfterLastSeparator(p)];
    if head != [] && !AllSeparators(head) then StripTrailingSeparators(head) else head
  }

  /** After a separator, a piece without separator ends the string: the last
      separator is the one before it. */
  lemma {:induction false} AfterName(s: string, x: string)
    requires '/' !in x
    ensures AfterLastSeparator(s + "/" + x) == |s| + 1
    decreases |x|
  {
    var p := s + "/" + x;
    if x == [] {
      assert p[|p| - 1] == '/';
    } else {
      var x0 := x[..|x| - 1];
      assert x[|x| - 1] in x;
      assert forall ch :: ch in x0 ==> ch in x;
      assert p[..|p| - 1] == s + "/" + x0;
      AfterName(s, x0);
    }
  }

  /** The directory part of `os.path.join(a, j + "/" + x)`, where `a` and `j`
      end with something other than a separator, `j` is relative and `x` has
      no separator, is `a/j`. */
  lemma DirnameOfJoined(a: string, j: string, x: string)
    requires a != "" && a[|a| - 1] != '/'
    requires j != "" && j[0] != '/' && j[|j| - 1] != '/' && '/' !in x
    ensures Dirname(Join(a, j + "/" + x)) == a + "/" + j
  {
    var aj := a + "/" + j;
    assert (j + "/" + x)[0] == j[0];
    assert Join(a, j + "/" + x) == aj + "/" + x;
    AfterName(aj, x);
    var head := (aj + "/" + x)[..|aj| + 1];
    assert head == aj + "/";
    assert head[|head| - 2] == j[|j| - 1];
    assert !AllSeparators(head);
    assert head[..|head| - 1] == aj;
    assert aj[|aj| - 1] == j[|j| - 1];
    assert StripTrailingSeparators(aj) == aj;
    assert StripTrailingSeparators(head) == aj;
  }

  /** Python's `s[i:]`, which is empty when `i` is past the end. */
  function SliceFrom(s: string, i: nat): string {
    if i <= |s| then s[i..] else ""
  }

  // ---------------------------------------------------------------------------
  // Resolution of a string to the location it names
  // ---------------------------------------------------------------------------

  /** One component of a path applied to a location: empty and `.` stay, `..`
      goes up (not above the root), a name goes down. */
  function Step(p: Path, part: string): Path {
    if part == "" || part == "." then p
    else if part == ".." then (if p == [] then [] else p[..|p| - 1])
    else p + [part]
  }

  function ResolveFrom(base: Path, parts: seq<string>): Path
    decreases |parts|
  {
    if parts == [] then base
    else Step(ResolveFrom(base, parts[..|parts| - 1]), parts[|parts| - 1])
  }

  /** The location a path string names, relative strings starting at `cwd`. */
  function Resolve(cwd: Path, s: string): Path {
    ResolveFrom(if IsAbsolute(s) then [] else cwd, Split(s))
  }

  lemma {:induction false} ResolveFromConcat(base: Path, xs: seq<string>, ys: seq<string>)
    ensures ResolveFrom(base, xs + ys) == ResolveFrom(ResolveFrom(base, xs), ys)
    decreases |ys|
  {
    if ys != [] {
      assert (xs + ys)[..|xs + ys| - 1] == xs + ys[..|ys| - 1];
      ResolveFromConcat(base, xs, ys[..|ys| - 1]);
    } else {
      assert xs + ys == xs;
    }
  }

  /** Resolution only ever adds valid names. */
  lemma {:induction false} ResolveFromValid(base: Path, parts: seq<string>)
    requires ValidNames(base)
    requires forall i :: 0 <= i < |parts| ==> '/' !in parts[i]
    ensures ValidNames(ResolveFrom(base, parts))
    decreases |parts|
  {
    if parts != [] {
      ResolveFromValid(base, parts[..|parts| - 1]);
    }
  }

  lemma ResolveValid(cwd: Path, s: string)
    requires ValidNames(cwd)
    ensures ValidNames(Resolve(cwd, s))
  {
    ResolveFromValid(if IsAbsolute(s) then [] else cwd, Split(s));
  }

  /** A trailing separator does not change what a non-empty string names. */
  lemma ResolveTrailingSeparator(cwd: Path, t: string)
    requires t != []
    ensures Resolve(cwd, t + "/") == Resolve(cwd, t)
  {
    SplitConcat(t, "");
    assert t + "/" == t + "/" + "";
    assert (Split(t) + [""])[..|Split(t)|] == Split(t);
    assert (t + "/")[0] == t[0];
  }

  /** Joining a name onto a string goes one level down from where the string resolves. */
  lemma ResolveJoin(cwd: Path, a: string, c: string)
    requires ValidName(c)
    ensures Resolve(cwd, Join(a, c)) == Resolve(cwd, a) + [c]
  {
    SplitNoSeparator(c);
    assert c[0] in c;
    if a == "" {
      ResolveJoinEmpty(cwd, c);
    } else if a[|a| - 1] == '/' {
      ResolveJoinAfterSeparator(cwd, a, c);
    } else {
      var j := Join(a, c);
      assert j == a + "/" + c && j[0] == a[0];
      SplitConcat(a, c);
      assert (Split(a) + [c])[..|Split(a)|] == Split(a);
    }
  }

  lemma ResolveJoinEmpty(cwd: Path, c: string)
    requires ValidName(c) && Split(c) == [c] && !IsAbsolute(c)
    ensures Resolve(cwd, Join("", c)) == Resolve(cwd, "") + [c]
  {
    assert Join("", c) == c;
    assert [c][..0] == [];
    assert Split("") == [""];
    assert [""][..0] == [];
  }

  lemma ResolveJoinAfterSeparator(cwd: Path, a: string, c: string)
    requires ValidName(c) && Split(c) == [c] && !IsAbsolute(c)
    requires a != "" && a[|a| - 1] == '/'
    ensures Resolve(cwd, Join(a, c)) == Resolve(cwd, a) + [c]
  {
    var j := Join(a, c);
    var a0 := a[..|a| - 1];
    LastOf(a);
    assert a == a0 + "/" + "";
    assert j == a0 + "/" + c;
    assert j[0] == a[0];
    var base := if IsAbsolute(a) then [] else cwd;
    var xs := Split(a0);
    SplitConcat(a0, c);
    SplitConcat(a0, "");
    ResolveFromSnoc(base, xs, c);
    ResolveFromSnoc(base, xs, "");
  }

  lemma ResolveFromSnoc(base: Path, xs: seq<string>, x: string)
    ensures ResolveFrom(base, xs + [x]) == Step(ResolveFrom(base, xs), x)
  {
    DropLastAppend(xs, x);
  }

  lemma ResolveFromOne(base: Path, part: string)
    ensures ResolveFrom(base, [part]) == Step(base, part)
  {
    assert [part][..0] == [];
  }

  /** Joining valid names one by one goes down by exactly those names. */
  lemma {:induction false} ResolveUnder(cwd: Path, a: string, rel: Path)
    requires ValidNames(rel)
    ensures Resolve(cwd, Under(a, rel)) == Resolve(cwd, a) + rel
    decreases |rel|
  {
    if rel != [] {
      var init := rel[..|rel| - 1];
      ResolveUnder(cwd, a, init);
      ResolveJoin(cwd, Under(a, init), rel[|rel| - 1]);
      assert init + [rel[|rel| - 1]] == rel;
    }
  }

  lemma UnderAppend(a: string, rel: Path, c: string)
    ensures Under(a, rel + [c]) == Join(Under(a, rel), c)
  {
    assert (rel + [c])[..|rel|] == rel;
  }

  /** Joining a first name and then the rest is joining all of them. */
  lemma {:induction false} UnderCons(a: string, c: string, rel: Path)
    ensures Under(Join(a, c), rel) == Under(a, [c] + rel)
    decreases |rel|
  {
    if rel == [] {
      assert [c] + rel == [c];
      assert [c][..0] == [];
    } else {
      var init := rel[..|rel| - 1];
      UnderCons(a, c, init);
      assert ([c] + rel)[..|[c] + rel| - 1] == [c] + init;
    }
  }

  /** Under a non-empty string that does not end with a separator, joining names
      is the same as `a + "/" + "/".join(rel)`. */
  lemma {:induction false} UnderFlat(a: string, rel: Path)
    requires a != "" && a[|a| - 1] != '/'
    requires |rel| >= 1 && ValidNames(rel)
    ensures Under(a, rel) == a + "/" + JoinAll(rel)
    decreases |rel|
  {
    var c := rel[|rel| - 1];
    assert c[0] in c;
    if |rel| == 1 {
      assert rel[..0] == [];
    } else {
      var init := rel[..|rel| - 1];
      UnderFlat(a, init);
      JoinAllEnds(init);
      var u := a + "/" + JoinAll(init);
      assert u[|u| - 1] == JoinAll(init)[|JoinAll(init)| - 1];
    }
  }

  /** Stripping trailing separators leaves something unless the string was
      nothing but separators, and does not change what it resolves to. */
  lemma {:induction false} StripTrailingSeparatorsResolve(cwd: Path, s: string)
    requires s != [] && !AllSeparators(s)
    ensures StripTrailingSeparators(s) != []
    ensures Resolve(cwd, StripTrailingSeparators(s)) == Resolve(cwd, s)
    decreases |s|
  {
    if s[|s| - 1] == '/' {
      var s0 := s[..|s| - 1];
      assert s == s0 + "/";
      SeparatorsThenSeparator(s0);
      StripTrailingSeparatorsResolve(cwd, s0);
      ResolveTrailingSeparator(cwd, s0);
    }
  }

  lemma SeparatorsThenSeparator(s0: string)
    ensures AllSeparators(s0) ==> AllSeparators(s0 + "/")
  {
  }

  /** The directory part of a path whose last component is a name resolves to
      the parent of what the path resolves to. */
  lemma DirnameResolve(cwd: Path, p: string)
    requires ValidName(Split(p)[|Split(p)| - 1])
    ensures Resolve(cwd, Dirname(p)) + [Split(p)[|Split(p)| - 1]] == Resolve(cwd, p)
  {
    var i := AfterLastSeparator(p);
    var name := p[i..];
    assert '/' !in name;
    SplitNoSeparator(name);
    if i == 0 {
      assert p == name;
      assert Dirname(p) == "";
      ResolveJoin(cwd, "", name);
    } else {
      DirnameSplit(cwd, p, i);
    }
  }

  lemma DirnameSplit(cwd: Path, p: string, i: nat)
    requires i == AfterLastSeparator(p) && i > 0
    requires ValidName(Split(p)[|Split(p)| - 1])
    ensures Resolve(cwd, Dirname(p)) + [Split(p)[|Split(p)| - 1]] == Resolve(cwd, p)
  {
    var name := p[i..];
    var h := p[..i - 1];
    var head := p[..i];
    assert '/' !in name;
    SplitNoSeparator(name);
    assert p == h + "/" + name;
    SplitConcat(h, name);
    assert Split(p)[|Split(p)| - 1] == name;
    assert head == h + "/";
    ResolveJoin(cwd, head, name);
    assert name[0] in name;
    assert Join(head, name) == p;
    if !AllSeparators(head) {
      StripTrailingSeparatorsResolve(cwd, head);
    }
  }

  /** With no `..` and not absolute, resolution goes down from the base by the
      names that are left once empty and `.` components are dropped. */
  function Names(parts: seq<string>): (r: Path)
    decreases |parts|
  {
    if parts == [] then []
    else
      var last := parts[|parts| - 1];
      Names(parts[..|parts| - 1]) + (if last == "" || last == "." then [] else [last])
  }

  lemma {:induction false} ResolveFromNoParent(base: Path, parts: seq<string>)
    requires ".." !in parts
    ensures ResolveFrom(base, parts) == base + Names(parts)
    decreases |parts|
  {
    if parts != [] {
      var init := parts[..|parts| - 1];
      assert forall x :: x in init ==> x in parts;
      ResolveFromNoParent(base, init);
    }
  }

  lemma {:induction false} NamesOfValid(parts: seq<string>)
    requires ValidNames(parts)
    ensures Names(parts) == parts
    decreases |parts|
  {
    if parts != [] {
      NamesOfValid(parts[..|parts| - 1]);
    }
  }

  // ---------------------------------------------------------------------------
  // Canonical relative paths
  // ---------------------------------------------------------------------------

  /** A relative path written plainly: names separated by single separators,
      with no empty, `.` or `..` component (`a/b.txt`, not `./a//b.txt/`). */
  predicate Canonical(s: string) {
    ValidNames(Split(s))
  }

  /** A canonical path is relative, does not end with a separator, and goes
      down from the working directory by exactly its components. */
  lemma CanonicalResolve(cwd: Path, s: string)
    requires Canonical(s)
    ensures s == JoinAll(Split(s))
    ensures s != "" && !IsAbsolute(s) && s[|s| - 1] != '/'
    ensures Resolve(cwd, s) == cwd + Split(s)
  {
    JoinAllSplit(s);
    JoinAllEnds(Split(s));
    assert ".." !in Split(s);
    ResolveFromNoParent(cwd, Split(s));
    NamesOfValid(Split(s));
  }

  /** Joining valid names one by one is joining their `"/".join` at once. */
  lemma {:induction false} UnderIsJoin(a: string, parts: Path)
    requires |parts| >= 1 && ValidNames(parts)
    ensures Under(a, parts) == Join(a, JoinAll(parts))
    decreases |parts|
  {
    var init := parts[..|parts| - 1];
    var x := parts[|parts| - 1];
    assert x[0] in x;
    if |parts| == 1 {
      assert init == [];
      assert Under(a, parts) == Join(a, x);
    } else {
      assert forall i :: 0 <= i < |init| ==> init[i] == parts[i];
      UnderIsJoin(a, init);
      JoinAllEnds(init);
      var j := JoinAll(init);
      var u := Join(a, j);
      assert Under(a, parts) == Join(u, x);
      JoinNameAfter(a, j, x);
    }
  }

  /** Joining a name after `os.path.join(a, j)`, where `j` is relative and ends
      with a name, is joining `j + "/" + x` to `a`. */
  lemma JoinNameAfter(a: string, j: string, x: string)
    requires |j| > 0 && j[0] != '/' && j[|j| - 1] != '/'
    requires |x| > 0 && x[0] != '/'
    ensures Join(Join(a, j), x) == Join(a, j + "/" + x)
  {
    var u := Join(a, j);
    assert u[|u| - 1] == j[|j| - 1];
    assert Join(u, x) == u + "/" + x;
    assert (j + "/" + x)[0] == j[0];
  }

  /** Joining a canonical path goes down from where the first string resolves
      by the components of the canonical path. */
  lemma ResolveJoinCanonical(cwd: Path, a: string, b: string)
    requires Canonical(b)
    ensures Resolve(cwd, Join(a, b)) == Resolve(cwd, a) + Split(b)
  {
    CanonicalResolve(cwd, b);
    UnderIsJoin(a, Split(b));
    ResolveUnder(cwd, a, Split(b));
  }

  /** Two canonical paths joined make a canonical path with the components of both. */
  lemma JoinCanonical(a: string, b: string)
    requires Canonical(a) && Canonical(b)
    ensures Join(a, b) == a + "/" + b
    ensures Split(Join(a, b)) == Split(a) + Split(b)
    ensures Canonical(Join(a, b))
  {
    CanonicalResolve([], a);
    CanonicalResolve([], b);
    SplitConcat(a, b);
  }
}
