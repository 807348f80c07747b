/**
 * What a chain of levels says about a restore: which objects of the tree it vouches for,
 * and what must hold of memory, record and disk for a crash to be harmless.
 */
module RestoreProgress {
  import opened Common
  import opened Bytes
  import opened ResumeRecord
  import opened ServerTree

  const MAX_BYTES_BETWEEN_SAVES := 128 * 1024

  /** The path of the directory that level `i` of the chain is about. */
  function SpinePath(c: Chain, i: nat): (p: Path)
    requires i <= |c|
    ensures |p| == i
    ensures forall t :: 0 <= t < i ==> p[t] == c[t].nextName
  {
    if i == 0 then [] else SpinePath(c, i - 1) + [c[i - 1].nextName]
  }

  lemma SpinePathPrefix(c: Chain, d: Chain, i: nat)
    requires i <= |c| && i <= |d| && forall t :: 0 <= t < i ==> c[t].nextName == d[t].nextName
    ensures SpinePath(c, i) == SpinePath(d, i)
  {
  }

  lemma SameSpinePath(c: Chain, d: Chain, k: nat)
    requires k <= |c| && k <= |d| && c[..k] == d[..k]
    ensures SpinePath(c, k) == SpinePath(d, k)
  {
    assert forall t :: 0 <= t < k ==> c[t] == c[..k][t] && d[t] == d[..k][t];
    SpinePathPrefix(c, d, k);
  }

  /** Level `j - 1` of the chain lists the object at the first `j` names of `p`. */
  ghost predicate DoneAt(root: Entry, c: Chain, p: Path, j: int) {
    && 1 <= j <= |p| && j <= |c|
    && p[..j - 1] == SpinePath(c, j - 1)
    && NodeAt(root, p[..j]).Some?
    && NodeAt(root, p[..j]).value.id in c[j - 1].restored
  }

  /** The chain vouches for the object at `p`: it or a directory above it is listed as restored. */
  ghost predicate Covered(root: Entry, c: Chain, p: Path) {
    NodeAt(root, p).Some? && exists j :: DoneAt(root, c, p, j)
  }

  /** One level of a chain, about the directory `d`. */
  ghost predicate LevelIn(root: Entry, c: Chain, i: nat)
    requires i < |c|
  {
    && DirAt(root, SpinePath(c, i))
    && c[i].restored <= ChildIds(NodeAt(root, SpinePath(c, i)).value.entries)
    && (i < |c| - 1 ==>
          && DirAt(root, SpinePath(c, i + 1))
          && NodeAt(root, SpinePath(c, i + 1)).value.id == c[i].nextId
          && c[i].nextId !in c[i].restored)
  }

  /** Every level lists objects of its own directory and descends into a child not yet listed. */
  ghost predicate ChainIn(root: Entry, c: Chain) {
    WellLinked(c) && forall i :: 0 <= i < |c| ==> LevelIn(root, c, i)
  }

  /** The directories that the chain has descended from are on disk, with their attributes. */
  ghost predicate SpineWhole(root: Entry, disk: Disk, c: Chain) {
    forall i :: 0 <= i < |c| - 1 ==> Whole(root, disk, SpinePath(c, i))
  }

  ghost predicate CoveredWhole(root: Entry, disk: Disk, c: Chain) {
    forall p :: Covered(root, c, p) ==> Whole(root, disk, p)
  }

  /** A chain that tells the truth about the disk. */
  ghost predicate Truthful(root: Entry, disk: Disk, c: Chain) {
    ChainIn(root, c) && SpineWhole(root, disk, c) && CoveredWhole(root, disk, c)
  }

  /** `older` vouches for nothing that `newer` does not. */
  ghost predicate NoMoreThan(root: Entry, older: Chain, newer: Chain) {
    forall p :: Covered(root, older, p) ==> Covered(root, newer, p)
  }

  /** The file on disk begins with the record, and the record is truthful. */
  ghost predicate Resumable(root: Entry, disk: Disk, file: Option<seq<byte>>, saved: Chain) {
    && Truthful(root, disk, saved)
    && Encodable(saved) && NamesFitBuffer(saved)
    && file.Some? && EncodeChain(saved) <= file.value
  }

  // ----- what a record can hold -----

  lemma ChainFits(root: Entry, c: Chain)
    requires ValidServer(root) && ChainIn(root, c)
    ensures Encodable(c) && NamesFitBuffer(c)
  {
    forall i | 0 <= i < |c|
      ensures LevelFits(c[i]) && |c[i].nextName| <= PATH_MAX
    {
      assert LevelIn(root, c, i);
      var d := NodeAt(root, SpinePath(c, i)).value;
      WellFormedAt(root, SpinePath(c, i));
      ChildIdsBound(d.entries);
      SubsetSize(c[i].restored, ChildIds(d.entries));
      if i < |c| - 1 {
        var next := SpinePath(c, i + 1);
        WellFormedAt(root, next);
        NodeAtPrefix(root, next, i);
        assert next[..i + 1] == next && next[..i] == SpinePath(c, i);
        NodeAtName(root, next);
      }
    }
  }

  lemma NodeAtName(root: Entry, p: Path)
    requires p != [] && NodeAt(root, p).Some?
    ensures NodeAt(root, p).value.name == p[|p| - 1]
  {
    var q, last: Path := p[..|p| - 1], [p[|p| - 1]];
    assert p == q + last;
    NodeAtAppend(root, q, last);
    NodeAtPrefix(root, p, |p| - 1);
    assert last[1..] == [];
  }

  // ----- how coverage moves -----

  /** Chains that agree on their first `k` levels agree on all that those levels say. */
  lemma SameOuterLevels(root: Entry, c: Chain, d: Chain, k: nat)
    requires k < |c| && k < |d| && c[..k] == d[..k]
    ensures forall i :: 0 <= i <= k ==> SpinePath(c, i) == SpinePath(d, i)
    ensures forall i :: 0 <= i < k && LevelIn(root, c, i) ==> LevelIn(root, d, i)
    ensures forall p, j :: j <= k ==> DoneAt(root, c, p, j) == DoneAt(root, d, p, j)
  {
    assert forall t :: 0 <= t < k ==> c[t] == c[..k][t] && d[t] == d[..k][t];
    forall i | 0 <= i <= k
      ensures SpinePath(c, i) == SpinePath(d, i)
    {
      SpinePathPrefix(c, d, i);
    }
  }

  /** Nothing on the spine itself is covered, nor anything that branches off it unlisted. */
  lemma OffSpineUncovered(root: Entry, c: Chain, p: Path)
    requires ChainIn(root, c)
    requires |p| <= |c| && NodeAt(root, p).Some?
    requires |p| > 0 ==> p[..|p| - 1] == SpinePath(c, |p| - 1) && NodeAt(root, p).value.id !in c[|p| - 1].restored
    ensures !Covered(root, c, p)
  {
    assert p[..|p|] == p;
    forall j | 1 <= j < |p|
      ensures !DoneAt(root, c, p, j)
    {
      SpineUnlisted(root, c, p, j);
    }
  }

  lemma SpineUnlisted(root: Entry, c: Chain, p: Path, j: nat)
    requires ChainIn(root, c) && 1 <= j < |p| <= |c|
    requires p[..|p| - 1] == SpinePath(c, |p| - 1)
    ensures !DoneAt(root, c, p, j)
  {
    assert LevelIn(root, c, j - 1);
    assert p[..j] == SpinePath(c, j) by {
      assert p[..j] == p[..|p| - 1][..j];
    }
  }

  /** `e` is a child of the directory that level `k` of the chain is about. */
  ghost predicate ChildOfLevel(root: Entry, c: Chain, k: nat, e: Path)
    requires k < |c|
  {
    |e| == k + 1 && e[..k] == SpinePath(c, k) && NodeAt(root, e).Some?
  }

  /** Listing one more object at the innermost level covers it and all below it, and nothing else. */
  lemma ListObject(root: Entry, c: Chain, e: Path, d: Chain)
    requires UniqueIds(root) && ChainIn(root, c) && ChildOfLevel(root, c, |c| - 1, e)
    requires d == c[|c| - 1 := c[|c| - 1].(restored := c[|c| - 1].restored + {NodeAt(root, e).value.id})]
    ensures ChainIn(root, d)
    ensures forall p :: Covered(root, d, p) <==> Covered(root, c, p) || (e <= p && NodeAt(root, p).Some?)
  {
    var k := |c| - 1;
    assert OnlyItsId(root, e);
    ListObjectInChain(root, c, e, d);
    forall p
      ensures Covered(root, d, p) <==> Covered(root, c, p) || (e <= p && NodeAt(root, p).Some?)
    {
      ListedAt(root, c, e, d, p);
    }
  }

  lemma ListObjectInChain(root: Entry, c: Chain, e: Path, d: Chain)
    requires ChainIn(root, c) && ChildOfLevel(root, c, |c| - 1, e)
    requires d == c[|c| - 1 := c[|c| - 1].(restored := c[|c| - 1].restored + {NodeAt(root, e).value.id})]
    ensures ChainIn(root, d)
  {
    var k := |c| - 1;
    SameOuterLevels(root, c, d, k);
    assert e[..k + 1] == e;
    NodeAtPrefix(root, e, k);
    assert LevelIn(root, c, k) && LevelIn(root, d, k);
  }

  /** No object but the one at `e` has that object's id. */
  ghost predicate OnlyItsId(root: Entry, e: Path) {
    NodeAt(root, e).Some? &&
    forall q :: NodeAt(root, q).Some? && NodeAt(root, q).value.id == NodeAt(root, e).value.id ==> q == e
  }

  lemma ListedAt(root: Entry, c: Chain, e: Path, d: Chain, p: Path)
    requires OnlyItsId(root, e) && |c| == |d| > 0 && ChildOfLevel(root, c, |c| - 1, e)
    requires var k := |c| - 1; c[..k] == d[..k] && d[k].restored == c[k].restored + {NodeAt(root, e).value.id}
    ensures Covered(root, d, p) <==> Covered(root, c, p) || (e <= p && NodeAt(root, p).Some?)
  {
    var k := |c| - 1;
    SameOuterLevels(root, c, d, k);
    if e <= p && NodeAt(root, p).Some? {
      assert p[..k + 1] == e && p[..k] == e[..k];
      assert DoneAt(root, d, p, k + 1);
    } else if NodeAt(root, p).Some? {
      forall j
        ensures DoneAt(root, d, p, j) <==> DoneAt(root, c, p, j)
      {
      }
    }
  }

  /** `d` is the chain `c` with a level for the child `e` linked below. */
  ghost predicate Descended(root: Entry, c: Chain, e: Path, d: Chain) {
    && 0 < |c| == |e| && |d| == |c| + 1 && NodeAt(root, e).Some?
    && var k := |c| - 1;
       && d[..k] == c[..k]
       && d[k] == Level(c[k].restored, NodeAt(root, e).value.id, e[k])
       && d[k + 1] == Level({}, 0, [])
  }

  lemma DescendInChain(root: Entry, c: Chain, e: Path, d: Chain)
    requires ChainIn(root, c) && ChildOfLevel(root, c, |c| - 1, e) && DirAt(root, e)
    requires NodeAt(root, e).value.id !in c[|c| - 1].restored && NodeAt(root, e).value.id != 0
    requires Descended(root, c, e, d)
    ensures ChainIn(root, d) && SpinePath(d, |e|) == e
  {
    var k := |c| - 1;
    SameOuterLevels(root, c, d, k);
    assert e == e[..k] + [e[k]];
    assert LevelIn(root, c, k) && LevelIn(root, d, k) && LevelIn(root, d, k + 1);
    assert WellLinked(d) by {
      forall i | 0 <= i < k ensures d[i].nextId != 0 {
        assert d[i] == d[..k][i] && c[i] == c[..k][i];
      }
    }
  }

  /** Descending into a child changes nothing in what is covered. */
  lemma DescendCovers(root: Entry, c: Chain, e: Path, d: Chain)
    requires Descended(root, c, e, d)
    ensures forall p :: Covered(root, d, p) <==> Covered(root, c, p)
  {
    var k := |c| - 1;
    SameOuterLevels(root, c, d, k);
    forall p, j
      ensures DoneAt(root, d, p, j) <==> DoneAt(root, c, p, j)
    {
    }
  }

  /** Coming back from a child and listing it keeps everything covered that was. */
  lemma Ascend(root: Entry, c: Chain, d: Chain)
    requires UniqueIds(root) && ChainIn(root, c) && |c| > 1
    requires var k := |c| - 2;
             d == c[..k] + [Level(c[k].restored + {c[k].nextId}, 0, [])]
    ensures ChainIn(root, d)
    ensures NoMoreThan(root, c, d)
    ensures forall p :: Covered(root, d, p) ==> Covered(root, c, p) || (SpinePath(c, |c| - 1) <= p && NodeAt(root, p).Some?)
  {
    var k := |c| - 2;
    var e := SpinePath(c, k + 1);
    SameOuterLevels(root, c, d, k);
    assert e[..k + 1] == e && e[..k] == SpinePath(c, k);
    assert LevelIn(root, c, k);
    NodeAtPrefix(root, e, k);
    assert LevelIn(root, d, k);
    assert OnlyItsId(root, e);
    forall p | Covered(root, c, p)
      ensures Covered(root, d, p)
    {
      AscendKeeps(root, c, d, p);
    }
    forall p | Covered(root, d, p)
      ensures Covered(root, c, p) || e <= p
    {
      AscendAdds(root, c, d, e, p);
    }
  }

  lemma AscendKeeps(root: Entry, c: Chain, d: Chain, p: Path)
    requires ChainIn(root, c) && 1 < |c| == |d| + 1
    requires var k := |c| - 2; c[..k] == d[..k] && d[k].restored == c[k].restored + {c[k].nextId}
    requires Covered(root, c, p)
    ensures Covered(root, d, p)
  {
    var k := |c| - 2;
    SameOuterLevels(root, c, d, k);
    InnerIsNext(root, c, k);
    hide Covered, ChainIn, LevelIn, NodeAt, SpinePath;
    var j := DoneWhere(root, c, p);
    if j <= k + 1 {
      DoneCovers(root, d, p, j);
    } else {
      assert p[..k] == p[..k + 1][..k];
      DoneCovers(root, d, p, k + 1);
    }
  }

  lemma InnerIsNext(root: Entry, c: Chain, k: nat)
    requires ChainIn(root, c) && k + 1 < |c|
    ensures var e := SpinePath(c, k + 1);
            |e| == k + 1 && e[..k] == SpinePath(c, k) && NodeAt(root, e).Some? && NodeAt(root, e).value.id == c[k].nextId
  {
    assert LevelIn(root, c, k);
  }


  lemma AscendAdds(root: Entry, c: Chain, d: Chain, e: Path, p: Path)
    requires 1 < |c| == |d| + 1
    requires OnlyItsId(root, e) && NodeAt(root, e).value.id == c[|c| - 2].nextId
    requires var k := |c| - 2; c[..k] == d[..k] && d[k].restored == c[k].restored + {c[k].nextId}
    requires Covered(root, d, p)
    ensures Covered(root, c, p) || e <= p
  {
    var k := |c| - 2;
    SameOuterLevels(root, c, d, k);
    hide Covered;
    var j := DoneWhere(root, d, p);
    if j <= k || NodeAt(root, p[..j]).value.id in c[k].restored {
      assert DoneAt(root, c, p, j);
      DoneCovers(root, c, p, j);
    } else {
      assert p[..j] == e;
    }
  }

  lemma DoneWhere(root: Entry, c: Chain, p: Path) returns (j: int)
    requires Covered(root, c, p)
    ensures DoneAt(root, c, p, j) && NodeAt(root, p).Some?
  {
    j :| DoneAt(root, c, p, j);
  }

  lemma DoneCovers(root: Entry, c: Chain, p: Path, j: int)
    requires DoneAt(root, c, p, j) && NodeAt(root, p).Some?
    ensures Covered(root, c, p)
  {
  }

  /** A chain of one empty level, with which a restore from scratch begins. */
  lemma StartChain(root: Entry, c: Chain)
    requires ValidServer(root) && c == [Level({}, 0, [])]
    ensures ChainIn(root, c) && forall p :: !Covered(root, c, p)
  {
    assert LevelIn(root, c, 0);
    forall p, j
      ensures !DoneAt(root, c, p, j)
    {
    }
  }

  // ----- how the disk moves -----

  /** Only the object at `w` may differ, and a directory that was whole there stays whole. */
  ghost predicate OnlyTouches(root: Entry, before: Disk, after: Disk, w: Path) {
    && (forall p :: p != w ==> (p in before <==> p in after) && (p in before ==> before[p] == after[p]))
    && (DirAt(root, w) && Whole(root, before, w) ==> Whole(root, after, w))
  }

  lemma TouchKeepsTruth(root: Entry, before: Disk, after: Disk, w: Path, c: Chain)
    requires Truthful(root, before, c)
    requires OnlyTouches(root, before, after, w) && !Covered(root, c, w)
    ensures Truthful(root, after, c)
  {
    forall i | 0 <= i < |c| - 1
      ensures Whole(root, after, SpinePath(c, i))
    {
      assert LevelIn(root, c, i);
      assert Whole(root, before, SpinePath(c, i));
    }
    forall p | Covered(root, c, p)
      ensures Whole(root, after, p)
    {
      assert Whole(root, before, p);
    }
  }

  // ----- how much a crash can cost -----

  /** Bytes of a restored file as the progress check counts them: a link counts as no file. */
  function CountedSize(root: Entry, p: Path): nat {
    var e := NodeAt(root, p);
    if e.Some? && e.value.File? && !e.value.contents.isLink then |e.value.contents.data| else 0
  }

  function CountedBytes(root: Entry, ps: seq<Path>): nat {
    if ps == [] then 0
    else CountedBytes(root, ps[..|ps| - 1]) + CountedSize(root, ps[|ps| - 1])
  }

  /** The bytes counted are those of the files; a link counts for nothing. */
  lemma CountedIsSize(root: Entry, ps: seq<Path>, w: Path, e: Entry)
    requires NodeAt(root, w) == Some(e) && e.File?
    ensures CountedBytes(root, []) == 0
    ensures CountedBytes(root, ps + [w]) == CountedBytes(root, ps) + if e.contents.isLink then 0 else |e.contents.data|
  {
    assert (ps + [w])[..|ps|] == ps;
  }

  /** All but the last of the files finished since the last save are within the limit. */
  ghost predicate WithinLimit(root: Entry, recent: seq<Path>) {
    recent != [] ==> CountedBytes(root, recent[..|recent| - 1]) <= MAX_BYTES_BETWEEN_SAVES
  }

  // ----- the state of a restore -----

  /**
   * `file` is the resume file; `saved` is the record at its start once this restore has
   * saved one (`started`). `mem` is the chain in memory. `done` are the files finished by
   * the current run, and `recent` those of them finished since the last save. `base` is the
   * chain that the current run began with.
   */
  datatype State = State(server: Entry, disk: Disk, file: Option<seq<byte>>, started: bool, saved: Chain,
                         mem: Chain, done: set<Path>, recent: seq<Path>, base: Chain)

  /** What holds after any step, and so after a crash. */
  ghost predicate Durable(s: State) {
    && ValidServer(s.server)
    && Within(s.server, s.disk)
    && (forall p :: p in s.disk ==> [] in s.disk)
    && (if s.started then Resumable(s.server, s.disk, s.file, s.saved) else s.disk == map[])
  }

  /** A resumed run will fetch again none of this run's files but the recent ones. */
  ghost predicate LossBounded(s: State) {
    && (forall p :: p in s.done ==> p in s.recent || (s.started && Covered(s.server, s.saved, p)))
    && WithinLimit(s.server, s.recent)
  }

  /** What a crash costs: files finished are in the record, but for some of which all but the last have at most 131072 bytes. */
  lemma LossInBytes(s: State)
    requires LossBounded(s)
    ensures forall p :: p in s.done && p !in s.recent ==> Covered(s.server, s.saved, p)
    ensures s.recent != [] ==> CountedBytes(s.server, s.recent[..|s.recent| - 1]) <= 131072
  {
  }

  ghost predicate Sound(s: State) {
    && Durable(s)
    && LossBounded(s)
    && Truthful(s.server, s.disk, s.mem)
    && (s.started ==> NoMoreThan(s.server, s.saved, s.mem))
    && (forall p :: p in s.done ==> Covered(s.server, s.mem, p))
    && NothingAgain(s)
  }

  /** The run finishes only files that the chain it began with does not cover. */
  ghost predicate NothingAgain(s: State) {
    && NoMoreThan(s.server, s.base, s.mem)
    && forall p :: p in s.done ==> !Covered(s.server, s.base, p)
  }

  lemma SaveIsSound(s: State, stale: seq<byte>, t: State)
    requires Sound(s) && Encodable(s.mem) && NamesFitBuffer(s.mem)
    requires t == s.(file := Some(Overwrite(stale, EncodeChain(s.mem))), started := true, saved := s.mem, recent := [])
    ensures Sound(t)
  {
  }

  lemma PutIsSound(s: State, after: Disk, w: Path)
    requires Sound(s) && s.started
    requires OnlyTouches(s.server, s.disk, after, w) && !Covered(s.server, s.mem, w)
    requires Within(s.server, after) && forall p :: p in after ==> [] in after
    ensures Sound(s.(disk := after))
  {
    TouchKeepsTruth(s.server, s.disk, after, w, s.mem);
    TouchKeepsTruth(s.server, s.disk, after, w, s.saved);
  }

  /** What one may put at `w`: nothing, or an object of the kind the server has there. */
  lemma PutObjectIsSound(s: State, w: Path, o: LocalObject)
    requires Sound(s) && s.started && !Covered(s.server, s.mem, w)
    requires NodeAt(s.server, w).Some? && (NodeAt(s.server, w).value.Dir? <==> o.LocalDir?)
    requires w == [] || [] in s.disk
    requires DirAt(s.server, w) && w in s.disk ==> o == Copy(NodeAt(s.server, w).value)
    ensures Sound(s.(disk := s.disk[w := o]))
  {
    PutIsSound(s, s.disk[w := o], w);
  }

  lemma RemoveFileIsSound(s: State, w: Path)
    requires Sound(s) && s.started && !Covered(s.server, s.mem, w)
    requires NodeAt(s.server, w).Some? && NodeAt(s.server, w).value.File? && w != []
    ensures Sound(s.(disk := s.disk - {w}))
  {
    PutIsSound(s, s.disk - {w}, w);
  }

  lemma ListingIsSound(s: State, e: Path, d: Chain)
    requires Sound(s) && ChildOfLevel(s.server, s.mem, |s.mem| - 1, e)
    requires forall p :: e <= p && NodeAt(s.server, p).Some? ==> Whole(s.server, s.disk, p)
    requires var k := |s.mem| - 1;
             d == s.mem[k := s.mem[k].(restored := s.mem[k].restored + {NodeAt(s.server, e).value.id})]
    ensures Sound(s.(mem := d))
    ensures forall p :: e <= p && NodeAt(s.server, p).Some? ==> Covered(s.server, d, p)
  {
    ListObject(s.server, s.mem, e, d);
    SameOuterLevels(s.server, s.mem, d, |s.mem| - 1);
  }

  lemma DescendedSpineWhole(root: Entry, disk: Disk, c: Chain, e: Path, d: Chain)
    requires Descended(root, c, e, d) && SpineWhole(root, disk, c) && Whole(root, disk, SpinePath(c, |c| - 1))
    ensures SpineWhole(root, disk, d)
  {
    hide Whole, NodeAt;
    forall i | 0 <= i < |d| - 1
      ensures Whole(root, disk, SpinePath(d, i))
    {
      assert d[..i] == d[..|e| - 1][..i] == c[..|e| - 1][..i] == c[..i];
      SameSpinePath(d, c, i);
    }
  }

  /** Other levels that vouch for the same objects will do as well. */
  lemma SameCoverIsSound(s: State, d: Chain)
    requires Sound(s) && ChainIn(s.server, d) && SpineWhole(s.server, s.disk, d)
    requires forall p :: Covered(s.server, d, p) <==> Covered(s.server, s.mem, p)
    ensures Sound(s.(mem := d))
  {
    hide Whole, Covered, ChainIn, SpineWhole, WithinLimit, Resumable, Within, ValidServer;
  }

  lemma DescendingIsSound(s: State, e: Path, d: Chain)
    requires Sound(s) && ChildOfLevel(s.server, s.mem, |s.mem| - 1, e) && DirAt(s.server, e)
    requires NodeAt(s.server, e).value.id !in s.mem[|s.mem| - 1].restored
    requires Whole(s.server, s.disk, SpinePath(s.mem, |s.mem| - 1))
    requires Descended(s.server, s.mem, e, d)
    ensures Sound(s.(mem := d)) && SpinePath(d, |e|) == e
  {
    hide Descended, Covered, SpineWhole, ChainIn, Whole, NodeAt, ChildOfLevel, Resumable, LossBounded, SpinePath;
    WellFormedAt(s.server, e);
    IdNotZero(s.server, e);
    DescendInChain(s.server, s.mem, e, d);
    DescendCovers(s.server, s.mem, e, d);
    DescendedSpineWhole(s.server, s.disk, s.mem, e, d);
    SameCoverIsSound(s, d);
  }

  lemma IdNotZero(root: Entry, e: Path)
    requires WellFormed(root) && NodeAt(root, e).Some?
    ensures NodeAt(root, e).value.id != 0
  {
    WellFormedAt(root, e);
  }

  lemma AscendingIsSound(s: State, d: Chain)
    requires Sound(s) && |s.mem| > 1
    requires forall p :: SpinePath(s.mem, |s.mem| - 1) <= p && NodeAt(s.server, p).Some? ==> Whole(s.server, s.disk, p)
    requires var k := |s.mem| - 2;
             d == s.mem[..k] + [Level(s.mem[k].restored + {s.mem[k].nextId}, 0, [])]
    ensures Sound(s.(mem := d))
  {
    Ascend(s.server, s.mem, d);
    SameOuterLevels(s.server, s.mem, d, |s.mem| - 2);
  }

  lemma FinishingFileIsSound(s: State, w: Path)
    requires Sound(s) && Covered(s.server, s.mem, w) && !Covered(s.server, s.base, w)
    requires CountedBytes(s.server, s.recent) <= MAX_BYTES_BETWEEN_SAVES
    ensures Sound(s.(done := s.done + {w}, recent := s.recent + [w]))
  {
    assert (s.recent + [w])[..|s.recent|] == s.recent;
  }
}
