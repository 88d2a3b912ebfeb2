/** How stale a file or a directory is, in whole days since last access.

    A file's staleness is the floor of its idle seconds over 86400. A
    directory's staleness is the smallest staleness among all files below it
    at any depth (its most recently touched file wins), and 0 when there are
    none. These are the reference definitions the scanning methods are proved
    against. */
module Staleness {
  import opened Paths
  import opened Disk

  const SecondsPerDay: int := 86400

  /** `math.floor(seconds / 86400)`. */
  function SecondsToDays(seconds: int): (days: int)
    ensures days * SecondsPerDay <= seconds < (days + 1) * SecondsPerDay
  {
    seconds / SecondsPerDay
  }

  /** The floor is the only whole number of days that brackets the seconds:
      86399 seconds is 0 days, 86400 is 1, and one second in the future is -1. */
  lemma SecondsToDaysUnique(seconds: int, days: int)
    requires days * SecondsPerDay <= seconds < (days + 1) * SecondsPerDay
    ensures SecondsToDays(seconds) == days
  {
  }

  /** One second short of a day is still 0 days, a full day is 1, and a
      file accessed one second in the future is -1 days stale. */
  lemma SecondsToDaysEdges()
    ensures SecondsToDays(86399) == 0 && SecondsToDays(86400) == 1 && SecondsToDays(-1) == -1
  {
    SecondsToDaysUnique(86399, 0);
    SecondsToDaysUnique(86400, 1);
    SecondsToDaysUnique(-1, -1);
  }

  /** Days since `atime` at time `now`. */
  function FileDays(now: int, atime: int): int {
    SecondsToDays(now - atime)
  }

  /** The smallest element of a non-empty finite set. */
  ghost function Min(s: set<int>): (m: int)
    requires exists y :: y in s
    ensures m in s && forall y :: y in s ==> m <= y
    decreases |s|
  {
    var x :| x in s;
    if forall y :: y in s ==> y == x then x
    else
      var other :| other in s && other != x;
      var rest := s - {x};
      assert other in rest;
      var r := Min(rest);
      assert forall y :: y in s ==> y == x || y in rest;
      if x < r then x else r
  }

  /** A member of a set that is below all others is its minimum. */
  lemma MinUnique(s: set<int>, m: int)
    requires m in s && forall x :: x in s ==> m <= x
    ensures Min(s) == m
  {
  }

  /** The day counts of the given files. */
  ghost function DaysOf(nodes: Tree, now: int, files: set<Path>): set<int> {
    set q | q in files && IsFile(nodes, q) :: FileDays(now, nodes[q].atime)
  }

  /** The staleness of a directory: the fewest days over the files below it,
      or 0 when it holds no file. */
  ghost function DirectoryDays(nodes: Tree, now: int, p: Path): int {
    var days := DaysOf(nodes, now, FilesUnder(nodes, p));
    if exists d :: d in days then Min(days) else 0
  }

  /** The staleness of any location: a file's own days, otherwise the
      directory rule (a location that is not a file counts as a directory). */
  ghost function StaleDays(nodes: Tree, now: int, p: Path): int {
    if IsFile(nodes, p) then FileDays(now, nodes[p].atime) else DirectoryDays(nodes, now, p)
  }

  /** A directory's staleness is at most that of every file below it, is
      attained by one of them, and is 0 when there is none. */
  lemma DirectoryDaysIsMinimum(nodes: Tree, now: int, p: Path)
    ensures FilesUnder(nodes, p) == {} ==> DirectoryDays(nodes, now, p) == 0
    ensures forall q :: q in FilesUnder(nodes, p) ==>
              DirectoryDays(nodes, now, p) <= FileDays(now, nodes[q].atime)
    ensures FilesUnder(nodes, p) != {} ==>
              exists q :: q in FilesUnder(nodes, p) && DirectoryDays(nodes, now, p) == FileDays(now, nodes[q].atime)
  {
    var files := FilesUnder(nodes, p);
    var days := DaysOf(nodes, now, files);
    forall q | q in files ensures FileDays(now, nodes[q].atime) in days {
    }
    if files != {} {
      var q :| q in files;
      assert FileDays(now, nodes[q].atime) in days;
    }
  }

  /** Conversely, a number with those three properties is the directory's staleness. */
  lemma DirectoryDaysCharacterized(nodes: Tree, now: int, p: Path, r: int)
    requires FilesUnder(nodes, p) == {} ==> r == 0
    requires forall q :: q in FilesUnder(nodes, p) ==> r <= FileDays(now, nodes[q].atime)
    requires FilesUnder(nodes, p) != {} ==>
               exists q :: q in FilesUnder(nodes, p) && r == FileDays(now, nodes[q].atime)
    ensures DirectoryDays(nodes, now, p) == r
  {
    var files := FilesUnder(nodes, p);
    var days := DaysOf(nodes, now, files);
    if files != {} {
      var q :| q in files && r == FileDays(now, nodes[q].atime);
      assert r in days;
      MinUnique(days, r);
    } else {
      assert forall d :: d !in days;
    }
  }

  /** Freshness dominance: one file below the threshold keeps the whole
      directory below it, however old the other files are. */
  lemma FreshFileKeepsDirectoryFresh(nodes: Tree, now: int, p: Path, q: Path, threshold: int)
    requires q in FilesUnder(nodes, p) && FileDays(now, nodes[q].atime) < threshold
    ensures DirectoryDays(nodes, now, p) < threshold
  {
    DirectoryDaysIsMinimum(nodes, now, p);
  }
}
