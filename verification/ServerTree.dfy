/** The directory tree that the store serves, and the part of it that is on the local disk. */
module ServerTree {
  import opened Common
  import opened Bytes
  import opened ResumeRecord

  type Path = seq<Name>

  datatype FileData = FileData(data: seq<byte>, attributes: int, isLink: bool)

  datatype Entry =
    | File(id: int, name: Name, contents: FileData)
    | Dir(id: int, name: Name, attributes: int, entries: seq<Entry>)

  // ----- the tree -----

  function Child(es: seq<Entry>, n: Name): (r: Option<Entry>)
    ensures r.Some? ==> r.value in es && r.value.name == n
  {
    if es == [] then None
    else if es[0].name == n then Some(es[0])
    else Child(es[1..], n)
  }

  /** The object at a path below `e`. */
  function NodeAt(e: Entry, p: Path): Option<Entry>
    decreases |p|
  {
    if p == [] then Some(e)
    else if e.File? then None
    else
      var c := Child(e.entries, p[0]);
      if c.None? then None else NodeAt(c.value, p[1..])
  }

  ghost predicate DirAt(root: Entry, p: Path) {
    NodeAt(root, p).Some? && NodeAt(root, p).value.Dir?
  }

  predicate UniqueNames(es: seq<Entry>) {
    forall i, j :: 0 <= i < j < |es| ==> es[i].name != es[j].name
  }

  function ChildIds(es: seq<Entry>): (ids: set<int>) {
    set e | e in es :: e.id
  }

  /** Names are unique in a directory; ids and names have the sizes a saved record can hold. */
  ghost predicate WellFormed(e: Entry) {
    && e.id != 0 && IsInt64(e.id)
    && (e.Dir? ==>
          && |e.name| <= PATH_MAX
          && |e.entries| < TWO63
          && UniqueNames(e.entries)
          && forall c :: c in e.entries ==> WellFormed(c))
  }

  /** No two objects of the tree have the same id. */
  ghost predicate UniqueIds(root: Entry) {
    forall p, q ::
      (NodeAt(root, p).Some? && NodeAt(root, q).Some? && NodeAt(root, p).value.id == NodeAt(root, q).value.id)
      ==> p == q
  }

  ghost predicate ValidServer(root: Entry) {
    root.Dir? && WellFormed(root) && UniqueIds(root)
  }

  lemma {:induction false} ChildAtIndex(es: seq<Entry>, i: nat)
    requires i < |es| && UniqueNames(es)
    ensures Child(es, es[i].name) == Some(es[i])
  {
    if i > 0 {
      ChildAtIndex(es[1..], i - 1);
    }
  }

  lemma {:induction false} NodeAtAppend(e: Entry, p: Path, q: Path)
    ensures NodeAt(e, p + q) == if NodeAt(e, p).None? then None else NodeAt(NodeAt(e, p).value, q)
    decreases |p|
  {
    if p == [] {
      assert p + q == q;
    } else if e.Dir? {
      assert (p + q)[0] == p[0] && (p + q)[1..] == p[1..] + q;
      if Child(e.entries, p[0]).Some? {
        NodeAtAppend(Child(e.entries, p[0]).value, p[1..], q);
      }
    }
  }

  lemma NodeAtChild(root: Entry, p: Path, i: nat)
    requires DirAt(root, p) && i < |NodeAt(root, p).value.entries|
    requires UniqueNames(NodeAt(root, p).value.entries)
    ensures var e := NodeAt(root, p).value.entries[i];
            NodeAt(root, p + [e.name]) == Some(e)
  {
    var e := NodeAt(root, p).value.entries[i];
    var last: Path := [e.name];
    NodeAtAppend(root, p, last);
    ChildAtIndex(NodeAt(root, p).value.entries, i);
    assert last[1..] == [];
  }

  /** Every prefix of a path in the tree is in the tree, and a proper one is a directory. */
  lemma NodeAtPrefix(root: Entry, p: Path, j: nat)
    requires NodeAt(root, p).Some? && j <= |p|
    ensures NodeAt(root, p[..j]).Some?
    ensures j < |p| ==> DirAt(root, p[..j]) && NodeAt(root, p[..j + 1]).Some?
    ensures j < |p| ==> NodeAt(root, p[..j + 1]).value in NodeAt(root, p[..j]).value.entries
  {
    assert p == p[..j] + p[j..];
    NodeAtAppend(root, p[..j], p[j..]);
    if j < |p| {
      assert p[..j + 1] == p[..j] + [p[j]];
      var last: Path := [p[j]];
      NodeAtAppend(root, p[..j], last);
      assert last[1..] == [];
    }
  }

  lemma {:induction false} WellFormedAt(e: Entry, p: Path)
    requires WellFormed(e) && NodeAt(e, p).Some?
    ensures WellFormed(NodeAt(e, p).value)
    decreases |p|
  {
    if p != [] {
      WellFormedAt(Child(e.entries, p[0]).value, p[1..]);
    }
  }

  lemma {:induction false} ChildIdsBound(es: seq<Entry>)
    ensures |ChildIds(es)| <= |es|
  {
    if es == [] {
      assert ChildIds(es) == {};
    } else {
      ChildIdsBound(es[1..]);
      assert ChildIds(es) == {es[0].id} + ChildIds(es[1..]);
    }
  }

  // ----- what the server answers to a request for a directory by its id -----

  function FindDir(e: Entry, id: int): (r: Option<Entry>)
    ensures r.Some? ==> r.value.Dir? && r.value.id == id
    decreases e, 0
  {
    if e.File? then None
    else if e.id == id then Some(e)
    else FindDirIn(e.entries, id)
  }

  function FindDirIn(es: seq<Entry>, id: int): (r: Option<Entry>)
    ensures r.Some? ==> r.value.Dir? && r.value.id == id
    decreases es, 1
  {
    if es == [] then None
    else if FindDir(es[0], id).Some? then FindDir(es[0], id)
    else FindDirIn(es[1..], id)
  }

  lemma {:induction false} FindDirIsInTree(e: Entry, id: int) returns (p: Path)
    requires WellFormed(e) && FindDir(e, id).Some?
    ensures NodeAt(e, p) == FindDir(e, id)
    decreases e, 0
  {
    if e.id == id {
      p := [];
    } else {
      var i, q := FindDirInIsInTree(e.entries, id);
      p := [e.entries[i].name] + q;
      ChildAtIndex(e.entries, i);
      assert p[1..] == q;
    }
  }

  lemma {:induction false} FindDirInIsInTree(es: seq<Entry>, id: int) returns (i: nat, p: Path)
    requires FindDirIn(es, id).Some?
    requires forall c :: c in es ==> WellFormed(c)
    ensures i < |es| && NodeAt(es[i], p) == FindDirIn(es, id)
    decreases es, 1
  {
    if FindDir(es[0], id).Some? {
      i := 0;
      p := FindDirIsInTree(es[0], id);
    } else {
      i, p := FindDirInIsInTree(es[1..], id);
      i := i + 1;
    }
  }

  lemma {:induction false} FindDirMissesNothing(e: Entry, p: Path)
    requires DirAt(e, p)
    ensures FindDir(e, NodeAt(e, p).value.id).Some?
    decreases e, 0
  {
    var id := NodeAt(e, p).value.id;
    if p != [] && e.id != id {
      var c := Child(e.entries, p[0]).value;
      FindDirMissesNothing(c, p[1..]);
      FindDirInMissesNothing(e.entries, c, id);
    }
  }

  lemma {:induction false} FindDirInMissesNothing(es: seq<Entry>, c: Entry, id: int)
    requires c in es && FindDir(c, id).Some?
    ensures FindDirIn(es, id).Some?
  {
    if es[0] != c {
      FindDirInMissesNothing(es[1..], c, id);
    }
  }

  /** Asking for a directory by id gives the directory, wherever it is in the tree. */
  lemma FindDirAt(root: Entry, p: Path)
    requires ValidServer(root) && DirAt(root, p)
    ensures FindDir(root, NodeAt(root, p).value.id) == NodeAt(root, p)
  {
    FindDirMissesNothing(root, p);
    var q := FindDirIsInTree(root, NodeAt(root, p).value.id);
  }

  // ----- the local disk -----

  /** `contents` is missing while a file is only partly written. */
  datatype LocalObject =
    | LocalDir(attributes: int)
    | LocalFile(contents: Option<FileData>)

  type Disk = map<Path, LocalObject>

  function Copy(e: Entry): LocalObject {
    if e.Dir? then LocalDir(e.attributes) else LocalFile(Some(e.contents))
  }

  /** The object at `p` is on disk, whole. */
  ghost predicate Whole(root: Entry, disk: Disk, p: Path) {
    NodeAt(root, p).Some? && p in disk && disk[p] == Copy(NodeAt(root, p).value)
  }

  /** Nothing is on disk but objects of the tree, whole or not. */
  ghost predicate Within(root: Entry, disk: Disk) {
    forall p :: p in disk ==> NodeAt(root, p).Some? && (disk[p].LocalDir? <==> NodeAt(root, p).value.Dir?)
  }

  /** The disk holds exactly the tree. */
  ghost predicate Matches(root: Entry, disk: Disk) {
    Within(root, disk) && forall p :: NodeAt(root, p).Some? ==> Whole(root, disk, p)
  }

  /** That is: the same paths, for each file its contents, and for each directory its attributes. */
  lemma MatchesExactly(root: Entry, disk: Disk)
    ensures Matches(root, disk) <==>
            && (forall p :: p in disk <==> NodeAt(root, p).Some?)
            && (forall p :: NodeAt(root, p).Some? ==>
                  var e := NodeAt(root, p).value;
                  p in disk && disk[p] == if e.Dir? then LocalDir(e.attributes) else LocalFile(Some(e.contents)))
  {
    if forall p :: NodeAt(root, p).Some? ==> Whole(root, disk, p) {
      assert forall p :: NodeAt(root, p).Some? ==> p in disk;
    }
  }

  /** An object is whole with its contents or attributes, and no other object is. */
  lemma WholeExactly(root: Entry, disk: Disk, p: Path)
    requires NodeAt(root, p).Some?
    ensures var e := NodeAt(root, p).value;
            Whole(root, disk, p) <==>
            p in disk && (if e.Dir? then disk[p] == LocalDir(e.attributes) else disk[p] == LocalFile(Some(e.contents)))
  {
  }

  /** Two complete restores of the same tree leave the same local tree. */
  lemma MatchesIsUnique(root: Entry, d1: Disk, d2: Disk)
    requires Matches(root, d1) && Matches(root, d2)
    ensures d1 == d2
  {
    forall p | p in d1 || p in d2
      ensures Whole(root, d1, p) && Whole(root, d2, p)
    {
    }
  }
}
