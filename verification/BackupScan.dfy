/** The counters of a progress panel, and the scan that adds up what there is to back up. */
module Progress {
  class ProgressCounters {
    var filesCounted: nat
    var bytesCounted: nat
    var filesDone: nat
    var bytesDone: nat

    constructor ()
      ensures filesCounted == bytesCounted == filesDone == bytesDone == 0
    {
      filesCounted, bytesCounted, filesDone, bytesDone := 0, 0, 0, 0;
    }

    method ResetCounters()
      modifies this
      ensures filesCounted == bytesCounted == filesDone == bytesDone == 0
    {
      filesCounted, bytesCounted, filesDone, bytesDone := 0, 0, 0, 0;
    }

    method NotifyMoreFilesCounted(files: nat, bytes: nat)
      modifies this`filesCounted, this`bytesCounted
      ensures filesCounted == old(filesCounted) + files && bytesCounted == old(bytesCounted) + bytes
    {
      filesCounted, bytesCounted := filesCounted + files, bytesCounted + bytes;
    }

    method NotifyMoreFilesDone(files: nat, bytes: nat)
      modifies this`filesDone, this`bytesDone
      ensures filesDone == old(filesDone) + files && bytesDone == old(bytesDone) + bytes
    {
      filesDone, bytesDone := filesDone + files, bytesDone + bytes;
    }
  }
}

module BackupScan {
  import opened Common
  import opened LocalPath
  import opened ExcludeRules
  import opened BackupTree
  import opened Progress

  function TotalSize(root: FileNode, files: seq<Path>): nat {
    if files == [] then 0
    else
      var n := NodeAt(root, files[0]);
      (if n.Some? && n.value.PlainFile? then n.value.size else 0) + TotalSize(root, files[1..])
  }

  /** Each file counts with its size. */
  lemma TotalSizeExactly(root: FileNode, files: seq<Path>, p: Path)
    requires NodeAt(root, p).Some? && NodeAt(root, p).value.PlainFile?
    ensures TotalSize(root, []) == 0 && TotalSize(root, files + [p]) == TotalSize(root, files) + NodeAt(root, p).value.size
  {
    TotalSizeAppend(root, files, [p]);
    assert [p][1..] == [];
  }

  lemma {:induction false} TotalSizeAppend(root: FileNode, a: seq<Path>, b: seq<Path>)
    ensures TotalSize(root, a + b) == TotalSize(root, a) + TotalSize(root, b)
  {
    if a == [] {
      assert a + b == b;
    } else {
      assert (a + b)[0] == a[0] && (a + b)[1..] == a[1..] + b;
      TotalSizeAppend(root, a[1..], b);
    }
  }

  /** What the entry `i` of a directory adds to the scan of it. */
  lemma CountedStep(o: Oracle, rx: RegexLibrary, n: FileNode, dir: string, root: FileNode, p: Path, i: nat)
    requires WellFormed(root) && NodeAt(root, p) == Some(n) && n.Directory? && i < |n.children|
    ensures var c, file := n.children[i], dir + "/" + n.children[i].name;
            var now, later := Counted(o, rx, n.children[i..], dir, p), Counted(o, rx, n.children[i + 1..], dir, p);
            if Refuses(o, rx, file, c.Directory?) then now == later
            else if c.PlainFile? then |now| == 1 + |later| && TotalSize(root, now) == c.size + TotalSize(root, later)
            else
              var inner := Counted(o, rx, c.children, file, p + [c.name]);
              |now| == |inner| + |later| && TotalSize(root, now) == TotalSize(root, inner) + TotalSize(root, later)
  {
    var c, file := n.children[i], dir + "/" + n.children[i].name;
    var later := Counted(o, rx, n.children[i + 1..], dir, p);
    var q := p + [c.name];
    assert n.children[i..][1..] == n.children[i + 1..];
    NodeAtChild(root, p, i);
    if c.PlainFile? {
      TotalSizeAppend(root, [q], later);
      assert [q][1..] == [];
    } else {
      TotalSizeAppend(root, Counted(o, rx, c.children, file, q), later);
    }
  }

  /** The counters have grown by the number and the size of the files or, if the scan was cut short, by no more. */
  ghost predicate Adds(root: FileNode, files: seq<Path>, files0: nat, bytes0: nat, files1: nat, bytes1: nat, cut: bool) {
    && files0 <= files1 <= files0 + |files| && bytes0 <= bytes1 <= bytes0 + TotalSize(root, files)
    && (!cut ==> files1 == files0 + |files| && bytes1 == bytes0 + TotalSize(root, files))
  }

  /**
   * Count the files of one directory, and those of the directories in it on the way. The user may ask to
   * stop, which ends the whole scan by an exception, and a directory that cannot be read is passed over.
   */
  method CountLocalFiles(counters: ProgressCounters, o: Oracle, rx: RegexLibrary, n: FileNode, dir: string,
                         ghost root: FileNode, ghost p: Path) returns (stopped: bool, ghost unread: bool)
    requires WellFormed(root) && NodeAt(root, p) == Some(n) && n.Directory?
    modifies counters`filesCounted, counters`bytesCounted
    ensures Adds(root, Counted(o, rx, n.children, dir, p), old(counters.filesCounted), old(counters.bytesCounted),
                 counters.filesCounted, counters.bytesCounted, stopped || unread)
    decreases n
  {
    if * { return true, false; }
    if * { return false, true; }
    stopped, unread := false, false;
    var files: nat, bytes: nat := 0, 0;
    ghost var all := Counted(o, rx, n.children, dir, p);
    assert n.children[0..] == n.children;
    for i := 0 to |n.children|
      invariant !stopped
      invariant ghost var rest := Counted(o, rx, n.children[i..], dir, p);
                && counters.filesCounted + files + |rest| <= old(counters.filesCounted) + |all|
                && counters.bytesCounted + bytes + TotalSize(root, rest) <= old(counters.bytesCounted) + TotalSize(root, all)
                && old(counters.filesCounted) <= counters.filesCounted && old(counters.bytesCounted) <= counters.bytesCounted
                && (!unread ==>
                      && counters.filesCounted + files + |rest| == old(counters.filesCounted) + |all|
                      && counters.bytesCounted + bytes + TotalSize(root, rest) == old(counters.bytesCounted) + TotalSize(root, all))
    {
      hide Counted, Refuses, TotalSize;
      var c := n.children[i];
      var file := dir + "/" + c.name;
      CountedStep(o, rx, n, dir, root, p, i);
      if c.PlainFile? {
        if !Refuses(o, rx, file, false) {
          files, bytes := files + 1, bytes + c.size;
        }
      } else if !Refuses(o, rx, file, true) {
        NodeAtChild(root, p, i);
        ghost var missed: bool;
        stopped, missed := CountLocalFiles(counters, o, rx, c, file, root, p + [c.name]);
        unread := unread || missed;
        if stopped { return; }
      }
    }
    counters.NotifyMoreFilesCounted(files, bytes);
  }

  /**
   * The scan of a location, if it is not stopped and can read every directory, adds the number and the size
   * of the files below it that the tree would show as not excluded without the other locations; if the
   * location stands, those that the tree does show so. Otherwise it adds no more than that.
   */
  method CountLocation(counters: ProgressCounters, rx: RegexLibrary, ghost root: FileNode, n: FileNode, o: Oracle,
                       ghost locs: seq<Location>, ghost i: nat, ghost at: Path, path: string) returns (stopped: bool, ghost unread: bool)
    requires WellFormed(root) && NodeAt(root, at) == Some(n) && n.Directory?
    requires i < |locs| && path == locs[i].path == FullPath(at) && OracleFor(o, locs[i], rx)
    modifies counters`filesCounted, counters`bytesCounted
    ensures var alone, shown := NotExcluded([locs[i]], rx, root, FilesBelow(n, at)), NotExcluded(locs, rx, root, FilesBelow(n, at));
            && (at != [] ==> Adds(root, alone, old(counters.filesCounted), old(counters.bytesCounted), counters.filesCounted, counters.bytesCounted, stopped || unread))
            && (at != [] && Standing(locs, i, at) ==>
                  Adds(root, shown, old(counters.filesCounted), old(counters.bytesCounted), counters.filesCounted, counters.bytesCounted, stopped || unread))
    ensures Adds(root, Counted(o, rx, n.children, path, at), old(counters.filesCounted), old(counters.bytesCounted),
                 counters.filesCounted, counters.bytesCounted, stopped || unread)
  {
    hide Standing, OracleFor, Counted;
    if at != [] {
      ScanCountsAsIfAlone(locs[i], rx, root, at, o);
      if Standing(locs, i, at) { ScanCountsWhatIsShown(locs, rx, root, i, at, o); }
    }
    stopped, unread := CountLocalFiles(counters, o, rx, n, path, root, at);
  }
}
