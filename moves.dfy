/** A batch of file moves into a staging directory, made one after another,
    each after creating the directories on the way to its destination (what
    the transfer loop does for every file it archives).

    When the moves are independent -- no two share a file, no destination lies
    on the way to another, no file to move is inside the staging directory and
    nothing blocks the way -- every order gives the same result: each file is
    at its destination, its old place is empty, the directories created lie on
    the way to the destinations, and nothing else changes. */
module Moves {
  import opened Paths
  import opened Disk

  /** One file to move, from where it is to where it goes. */
  datatype Move = Move(src: Path, dst: Path)

  /** The moves to make, one per catalogue key. */
  type Batch = map<string, Move>

  /** No file stands where `os.makedirs` must find or create `staging`. */
  ghost predicate Reachable(nodes: Tree, staging: Path) {
    forall i :: 0 <= i <= |staging| && staging[..i] in nodes ==> nodes[staging[..i]].Directory?
  }

  /** No entry strictly between the staging directory and `d` is a file. */
  ghost predicate Clear(nodes: Tree, staging: Path, d: Path) {
    forall i :: |staging| < i < |d| && d[..i] in nodes ==> nodes[d[..i]].Directory?
  }

  /** The moves can be made in any order without one spoiling another. */
  ghost predicate Independent(o: Tree, staging: Path, batch: Batch) {
    && WellFormed(o) && Reachable(o, staging)
    && (forall k :: k in batch ==>
          && IsFile(o, batch[k].src) && !IsPrefix(staging, batch[k].src)
          && StrictPrefix(staging, batch[k].dst)
          && Clear(o, staging, batch[k].dst) && !IsDirectory(o, batch[k].dst))
    && (forall k1, k2 :: k1 in batch && k2 in batch && IsPrefix(batch[k1].dst, batch[k2].dst) ==> k1 == k2)
    && (forall k1, k2 :: k1 in batch && k2 in batch && batch[k1].src == batch[k2].src ==> k1 == k2)
  }

  /** The directories `os.makedirs` creates on the way to `p`. */
  function Made(nodes: Tree, p: Path): Tree {
    map q | q in Prefixes(p) && q !in nodes :: Directory
  }

  /** The filesystem after creating the way to `dst` and moving `src` there. */
  function AfterMove(nodes: Tree, src: Path, dst: Path): Tree
    requires src in nodes && dst != []
  {
    ((nodes + Made(nodes, Parent(dst))) - {src})[dst := nodes[src]]
  }

  ghost function Sources(batch: Batch, done: set<string>): set<Path> {
    set k | k in batch && k in done :: batch[k].src
  }

  ghost function Dests(batch: Batch, done: set<string>): set<Path> {
    set k | k in batch && k in done :: batch[k].dst
  }

  /** A location on the way to the staging directory, or strictly on the way
      to the destination of a move already made. */
  ghost predicate OnTheWay(staging: Path, batch: Batch, done: set<string>, q: Path) {
    || IsPrefix(q, staging)
    || exists k :: k in batch && k in done && StrictPrefix(q, batch[k].dst)
  }

  /** The filesystem once the keys in `done` have been handled, against the
      filesystem `o` before: the staging directory exists; each move made has
      emptied its source and filled its destination with the file; each move
      still to come finds its file in place and its way clear; every other old
      entry is unchanged; every new entry that is not a destination is a
      directory on the way to one. */
  ghost predicate MovedSoFar(o: Tree, staging: Path, batch: Batch, done: set<string>, nodes: Tree) {
    && IsDirectory(nodes, staging)
    && (forall k :: k in batch && k in done ==>
          && batch[k].src !in nodes && batch[k].src in o
          && batch[k].dst in nodes && nodes[batch[k].dst] == o[batch[k].src])
    && (forall k :: k in batch && k !in done ==>
          && batch[k].src in nodes && batch[k].src in o && nodes[batch[k].src] == o[batch[k].src]
          && Clear(nodes, staging, batch[k].dst) && !IsDirectory(nodes, batch[k].dst))
    && (forall q :: q in o && q !in Sources(batch, done) && q !in Dests(batch, done) ==>
          q in nodes && nodes[q] == o[q])
    && (forall q :: q in nodes && q !in o && q !in Dests(batch, done) ==>
          nodes[q].Directory? && OnTheWay(staging, batch, done, q))
  }

  /** A file to move is neither on the way to the staging directory nor in it. */
  lemma SourceOffStaging(o: Tree, staging: Path, batch: Batch, k: string, q: Path)
    requires Independent(o, staging, batch) && k in batch
    requires IsPrefix(q, staging) || IsPrefix(staging, q)
    ensures batch[k].src != q
  {
    if batch[k].src == q {
      assert false;
    }
  }

  /** Whatever lies on the way to a destination is on the way to the staging
      directory or inside it. */
  lemma WayToDest(staging: Path, d: Path, q: Path)
    requires StrictPrefix(staging, d) && IsPrefix(q, d)
    ensures IsPrefix(q, staging) || IsPrefix(staging, q)
  {
    if |q| <= |staging| {
      assert q == d[..|q|] == staging[..|q|];
    } else {
      assert q[..|staging|] == d[..|staging|];
    }
  }

  /** Creating the staging directory starts the batch. */
  lemma Begin(o: Tree, staging: Path, batch: Batch, nodes: Tree)
    requires Independent(o, staging, batch)
    requires nodes == o + Made(o, staging) && IsDirectory(nodes, staging)
    ensures MovedSoFar(o, staging, batch, {}, nodes)
  {
    BeginAllPending(o, staging, batch, nodes);
    NothingDone(batch);
    BeginMade(o, staging, nodes);
  }

  lemma BeginAllPending(o: Tree, staging: Path, batch: Batch, nodes: Tree)
    requires Independent(o, staging, batch)
    requires nodes == o + Made(o, staging)
    ensures forall k :: k in batch ==>
              && batch[k].src in nodes && batch[k].src in o && nodes[batch[k].src] == o[batch[k].src]
              && Clear(nodes, staging, batch[k].dst) && !IsDirectory(nodes, batch[k].dst)
  {
    forall k | k in batch
      ensures batch[k].src in nodes && nodes[batch[k].src] == o[batch[k].src]
      ensures Clear(nodes, staging, batch[k].dst) && !IsDirectory(nodes, batch[k].dst)
    {
      BeginPending(o, staging, nodes, batch[k].src, batch[k].dst);
    }
  }

  lemma NothingDone(batch: Batch)
    ensures Sources(batch, {}) == {} && Dests(batch, {}) == {}
  {
  }

  /** Creating the staging directory keeps every old entry and adds only
      directories on the way to it. */
  lemma BeginMade(o: Tree, staging: Path, nodes: Tree)
    requires nodes == o + Made(o, staging)
    ensures forall q :: q in nodes && q !in o ==> nodes[q].Directory? && IsPrefix(q, staging)
    ensures forall q :: q in o ==> q in nodes && nodes[q] == o[q]
  {
  }

  /** Creating the staging directory leaves a file to move in place and its
      way clear. */
  lemma BeginPending(o: Tree, staging: Path, nodes: Tree, src: Path, d: Path)
    requires nodes == o + Made(o, staging)
    requires src in o && StrictPrefix(staging, d) && Clear(o, staging, d) && !IsDirectory(o, d)
    ensures src in nodes && nodes[src] == o[src]
    ensures Clear(nodes, staging, d) && !IsDirectory(nodes, d)
  {
    forall i | |staging| < i < |d| && d[..i] in nodes ensures nodes[d[..i]].Directory? {
      assert |d[..i]| > |staging|;
    }
  }

  /** Handling a key with nothing to move changes nothing. */
  lemma Skip(o: Tree, staging: Path, batch: Batch, done: set<string>, nodes: Tree, k: string)
    requires MovedSoFar(o, staging, batch, done, nodes) && k !in batch
    ensures MovedSoFar(o, staging, batch, done + {k}, nodes)
  {
    assert Sources(batch, done + {k}) == Sources(batch, done);
    assert Dests(batch, done + {k}) == Dests(batch, done);
    forall q | OnTheWay(staging, batch, done, q) ensures OnTheWay(staging, batch, done + {k}, q) {
    }
  }

  /** The hypotheses of one step: the move of `k`, not made yet, is made from
      the state after `done`. */
  ghost predicate StepFrom(o: Tree, staging: Path, batch: Batch, done: set<string>, nodes: Tree, k: string, next: Tree) {
    && Independent(o, staging, batch) && MovedSoFar(o, staging, batch, done, nodes)
    && k in batch && k !in done
    && batch[k].src in nodes && batch[k].dst != []
    && next == AfterMove(nodes, batch[k].src, batch[k].dst)
  }

  /** Making the move of `k` gives the state after `done + {k}`. */
  lemma Step(o: Tree, staging: Path, batch: Batch, done: set<string>, nodes: Tree, k: string, next: Tree)
    requires StepFrom(o, staging, batch, done, nodes, k, next)
    ensures MovedSoFar(o, staging, batch, done + {k}, next)
  {
    StepStaging(o, staging, batch, done, nodes, k, next);
    StepMoved(o, staging, batch, done, nodes, k, next);
    StepPending(o, staging, batch, done, nodes, k, next);
    StepFrame(o, staging, batch, done, nodes, k, next);
    StepCreated(o, staging, batch, done, nodes, k, next);
  }

  /** The entries created on the way to the destination of `k` were absent
      and lie strictly on the way to it. */
  lemma MadeOnTheWay(nodes: Tree, d: Path, q: Path)
    requires d != [] && q in Made(nodes, Parent(d))
    ensures q !in nodes && StrictPrefix(q, d)
  {
    assert q == Parent(d)[..|q|] == d[..|q|];
  }

  lemma StepStaging(o: Tree, staging: Path, batch: Batch, done: set<string>, nodes: Tree, k: string, next: Tree)
    requires StepFrom(o, staging, batch, done, nodes, k, next)
    ensures IsDirectory(next, staging)
  {
    assert staging[..|staging|] == staging;
    SourceOffStaging(o, staging, batch, k, staging);
  }

  /** A file to move is never among the directories created for another. */
  lemma SourceNotMade(o: Tree, staging: Path, batch: Batch, nodes: Tree, j: string, k: string)
    requires Independent(o, staging, batch) && j in batch && k in batch
    ensures batch[j].src !in Made(nodes, Parent(batch[k].dst))
  {
    var d := batch[k].dst;
    if batch[j].src in Made(nodes, Parent(d)) {
      MadeOnTheWay(nodes, d, batch[j].src);
      WayToDest(staging, d, batch[j].src);
      SourceOffStaging(o, staging, batch, j, batch[j].src);
      assert false;
    }
  }

  lemma StepMoved(o: Tree, staging: Path, batch: Batch, done: set<string>, nodes: Tree, k: string, next: Tree)
    requires StepFrom(o, staging, batch, done, nodes, k, next)
    ensures forall j :: j in batch && j in done + {k} ==>
              && batch[j].src !in next && batch[j].src in o
              && batch[j].dst in next && next[batch[j].dst] == o[batch[j].src]
  {
    forall j | j in batch && j in done + {k}
      ensures batch[j].src !in next && batch[j].src in o
      ensures batch[j].dst in next && next[batch[j].dst] == o[batch[j].src]
    {
      if j != k {
        EarlierMoveStays(o, staging, batch, done, nodes, k, next, j);
      }
    }
  }

  /** A move made earlier is not undone by the move of `k`. */
  lemma EarlierMoveStays(o: Tree, staging: Path, batch: Batch, done: set<string>, nodes: Tree, k: string, next: Tree, j: string)
    requires StepFrom(o, staging, batch, done, nodes, k, next) && j in batch && j in done
    ensures batch[j].src !in next && batch[j].dst in next && next[batch[j].dst] == o[batch[j].src]
  {
    var d := batch[k].dst;
    SourceOffStaging(o, staging, batch, j, d);
    SourceNotMade(o, staging, batch, nodes, j, k);
    assert batch[j].src !in nodes + Made(nodes, Parent(d));
    if batch[j].dst == d {
      assert IsPrefix(batch[j].dst, d);
    }
    assert batch[j].dst != d;
    SourceOffStaging(o, staging, batch, k, batch[j].dst);
    assert batch[j].dst != batch[k].src;
  }

  lemma StepPending(o: Tree, staging: Path, batch: Batch, done: set<string>, nodes: Tree, k: string, next: Tree)
    requires StepFrom(o, staging, batch, done, nodes, k, next)
    ensures forall j :: j in batch && j !in done + {k} ==>
              && batch[j].src in next && batch[j].src in o && next[batch[j].src] == o[batch[j].src]
              && Clear(next, staging, batch[j].dst) && !IsDirectory(next, batch[j].dst)
  {
    var d := batch[k].dst;
    forall j | j in batch && j !in done + {k}
      ensures batch[j].src in next && batch[j].src in o && next[batch[j].src] == o[batch[j].src]
      ensures Clear(next, staging, batch[j].dst) && !IsDirectory(next, batch[j].dst)
    {
      var dj := batch[j].dst;
      SourceOffStaging(o, staging, batch, j, d);
      forall i | |staging| < i < |dj| && dj[..i] in next ensures next[dj[..i]].Directory? {
        if dj[..i] == d {
          assert false;
        }
      }
      if dj in Made(nodes, Parent(d)) {
        MadeOnTheWay(nodes, d, dj);
        assert false;
      }
      if dj == d {
        assert false;
      }
    }
  }

  lemma StepFrame(o: Tree, staging: Path, batch: Batch, done: set<string>, nodes: Tree, k: string, next: Tree)
    requires StepFrom(o, staging, batch, done, nodes, k, next)
    ensures forall q :: q in o && q !in Sources(batch, done + {k}) && q !in Dests(batch, done + {k}) ==>
              q in next && next[q] == o[q]
  {
    forall q | q in o && q !in Sources(batch, done + {k}) && q !in Dests(batch, done + {k})
      ensures q in next && next[q] == o[q]
    {
      assert q !in Sources(batch, done) && q !in Dests(batch, done);
      assert q != batch[k].src && q != batch[k].dst;
    }
  }

  lemma StepCreated(o: Tree, staging: Path, batch: Batch, done: set<string>, nodes: Tree, k: string, next: Tree)
    requires StepFrom(o, staging, batch, done, nodes, k, next)
    ensures forall q :: q in next && q !in o && q !in Dests(batch, done + {k}) ==>
              next[q].Directory? && OnTheWay(staging, batch, done + {k}, q)
  {
    forall q | q in next && q !in o && q !in Dests(batch, done + {k})
      ensures next[q].Directory? && OnTheWay(staging, batch, done + {k}, q)
    {
      assert q != batch[k].dst && q !in Dests(batch, done);
      if q in nodes {
        assert OnTheWay(staging, batch, done, q);
      } else {
        MadeOnTheWay(nodes, batch[k].dst, q);
      }
    }
  }

  /** Once every move is made, the files inside a staging directory that held
      none are exactly the destinations. */
  lemma StagedAreMoved(o: Tree, staging: Path, batch: Batch, done: set<string>, nodes: Tree)
    requires Independent(o, staging, batch) && MovedSoFar(o, staging, batch, done, nodes)
    requires batch.Keys <= done && FilesUnder(o, staging) == {}
    ensures FilesUnder(nodes, staging) == Dests(batch, done)
  {
    forall q | q in FilesUnder(nodes, staging) ensures q in Dests(batch, done) {
      StagedFileIsDest(o, staging, batch, done, nodes, q);
    }
    forall q | q in Dests(batch, done) ensures q in FilesUnder(nodes, staging) {
      var k :| k in batch && k in done && batch[k].dst == q;
    }
  }

  lemma StagedFileIsDest(o: Tree, staging: Path, batch: Batch, done: set<string>, nodes: Tree, q: Path)
    requires Independent(o, staging, batch) && MovedSoFar(o, staging, batch, done, nodes)
    requires FilesUnder(o, staging) == {} && q in FilesUnder(nodes, staging)
    ensures q in Dests(batch, done)
  {
    NotASource(o, staging, batch, done, q);
    Unmoved(o, staging, batch, done, nodes, q);
    FileUnderIsListed(o, staging, q);
  }

  lemma Unmoved(o: Tree, staging: Path, batch: Batch, done: set<string>, nodes: Tree, q: Path)
    requires MovedSoFar(o, staging, batch, done, nodes)
    ensures q in o && q !in Sources(batch, done) && q !in Dests(batch, done) ==> q in nodes && nodes[q] == o[q]
    ensures q in nodes && q !in o && q !in Dests(batch, done) ==> nodes[q].Directory?
  {
  }

  lemma FileUnderIsListed(nodes: Tree, p: Path, q: Path)
    ensures q in nodes && nodes[q].File? && StrictPrefix(p, q) ==> q in FilesUnder(nodes, p)
  {
  }

  /** Nothing inside the staging directory is a file to move. */
  lemma NotASource(o: Tree, staging: Path, batch: Batch, done: set<string>, q: Path)
    requires Independent(o, staging, batch) && IsPrefix(staging, q)
    ensures q !in Sources(batch, done)
  {
    forall k | k in batch && k in done ensures batch[k].src != q {
      SourceOffStaging(o, staging, batch, k, q);
    }
  }

  /** A directory of the old filesystem, or a location on the way to the
      staging directory, is a directory at every point of the batch: no move
      takes away or lands on a directory. */
  lemma WayStaysOpen(o: Tree, staging: Path, batch: Batch, done: set<string>, nodes: Tree, q: Path)
    requires Independent(o, staging, batch) && MovedSoFar(o, staging, batch, done, nodes) && WellFormed(nodes)
    requires IsDirectory(o, q) || IsPrefix(q, staging)
    ensures IsDirectory(nodes, q)
  {
    if IsDirectory(o, q) {
      assert q !in Sources(batch, done) && q !in Dests(batch, done);
    } else if q != staging {
      AncestorIsDirectory(nodes, staging, |q|);
    }
  }
}
