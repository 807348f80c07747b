/**
 * What a restore fetches (src/RestoreProgressPanel.cc): the version of each node, the files that
 * the walk down from an included node comes to, and the include entries that the counting pass
 * drops so that no file is fetched twice.
 */
module RestorePlan {
  import opened Common
  import opened LocalPath
  import opened RestoreSelection

  // ----- the version of a node -----

  function MostRecent(vs: seq<Version>): Option<Version> {
    if vs == [] then None
    else
      var best, v := MostRecent(vs[..|vs| - 1]), vs[|vs| - 1];
      if best.Some? && v.id <= best.value.id then best else Some(v)
  }

  function LatestBefore(vs: seq<Version>, date: int): Option<Version> {
    if vs == [] then None
    else
      var best, v := LatestBefore(vs[..|vs| - 1], date), vs[|vs| - 1];
      if v.time > date || (best.Some? && v.time < best.value.time) then best else Some(v)
  }

  function Chosen(n: CacheNode, date: Option<int>): Option<Version> {
    if date.None? then MostRecent(n.versions) else LatestBefore(n.versions, date.value)
  }

  /** The greatest id; of equal ones the first listed. */
  ghost predicate HasGreatestId(vs: seq<Version>, i: int) {
    && 0 <= i < |vs|
    && forall j :: 0 <= j < |vs| ==> vs[j].id <= vs[i].id && (j < i ==> vs[j].id < vs[i].id)
  }

  lemma {:induction false} MostRecentIsGreatest(vs: seq<Version>)
    ensures MostRecent(vs).None? <==> vs == []
    ensures vs != [] ==> exists i :: HasGreatestId(vs, i) && MostRecent(vs) == Some(vs[i])
  {
    if vs != [] {
      var front, last := vs[..|vs| - 1], |vs| - 1;
      MostRecentIsGreatest(front);
      if front == [] {
        assert HasGreatestId(vs, 0);
      } else {
        var i :| HasGreatestId(front, i) && MostRecent(front) == Some(front[i]);
        assert forall j :: 0 <= j < last ==> vs[j] == front[j];
        assert HasGreatestId(vs, if vs[last].id <= vs[i].id then i else last);
      }
    }
  }

  /** The latest time that is not after the date; of equal ones the last listed. */
  ghost predicate IsLatest(vs: seq<Version>, date: int, i: int) {
    && 0 <= i < |vs| && vs[i].time <= date
    && forall j :: 0 <= j < |vs| && vs[j].time <= date ==> vs[j].time <= vs[i].time && (j > i ==> vs[j].time < vs[i].time)
  }

  lemma {:induction false} LatestBeforeIsLatest(vs: seq<Version>, date: int)
    ensures LatestBefore(vs, date).None? <==> forall i :: 0 <= i < |vs| ==> vs[i].time > date
    ensures LatestBefore(vs, date).Some? ==> exists i :: IsLatest(vs, date, i) && LatestBefore(vs, date) == Some(vs[i])
  {
    if vs != [] {
      var front, last := vs[..|vs| - 1], |vs| - 1;
      LatestBeforeIsLatest(front, date);
      assert forall j :: 0 <= j < last ==> vs[j] == front[j];
      if LatestBefore(front, date).Some? {
        var i :| IsLatest(front, date, i) && LatestBefore(front, date) == Some(front[i]);
        assert IsLatest(vs, date, if vs[last].time > date || vs[last].time < vs[i].time then i else last);
      } else if vs[last].time <= date {
        assert IsLatest(vs, date, last);
      }
    }
  }

  /**
   * Without a date the version with the greatest id, the first of equal ones; with a date the latest of
   * those not after it, the last of equal ones. None if there is none such.
   */
  lemma ChosenExactly(n: CacheNode, date: Option<int>)
    ensures var vs := n.versions;
            match date
            case None =>
              if vs == [] then Chosen(n, date) == None
              else exists i :: 0 <= i < |vs| && Chosen(n, date) == Some(vs[i]) &&
                     (forall j :: 0 <= j < |vs| ==> vs[j].id <= vs[i].id) && (forall j :: 0 <= j < i ==> vs[j].id < vs[i].id)
            case Some(d) =>
              if forall i :: 0 <= i < |vs| ==> vs[i].time > d then Chosen(n, date) == None
              else exists i :: 0 <= i < |vs| && Chosen(n, date) == Some(vs[i]) && vs[i].time <= d &&
                     (forall j :: 0 <= j < |vs| && vs[j].time <= d ==> vs[j].time <= vs[i].time) &&
                     (forall j :: i < j < |vs| && vs[j].time <= d ==> vs[j].time < vs[i].time)
  {
    if date.None? {
      MostRecentIsGreatest(n.versions);
      if n.versions != [] { var i :| HasGreatestId(n.versions, i) && MostRecent(n.versions) == Some(n.versions[i]); }
    } else {
      LatestBeforeIsLatest(n.versions, date.value);
      if LatestBefore(n.versions, date.value).Some? {
        var i :| IsLatest(n.versions, date.value, i) && LatestBefore(n.versions, date.value) == Some(n.versions[i]);
      }
    }
  }

  // ----- the walk down from a node -----

  /** What the walks of one restore have in common: the excluded nodes and the date. */
  datatype Settings = Settings(excluded: set<Path>, date: Option<int>)

  datatype Item = Item(path: Path, parent: int, version: Version)

  predicate Excluded(es: seq<SpecEntry>, p: Path) {
    SpecEntry(p, false) in es
  }

  predicate Included(es: seq<SpecEntry>, p: Path) {
    SpecEntry(p, true) in es
  }

  function Excludes(es: seq<SpecEntry>): (r: set<Path>)
    ensures forall p :: p in r <==> Excluded(es, p)
  {
    set e | e in es && !e.isInclude :: e.node
  }

  /** The node has a version to restore, and is neither excluded nor deleted. */
  predicate Live(s: Settings, n: CacheNode, p: Path) {
    var v := Chosen(n, s.date);
    v.Some? && p !in s.excluded && !v.value.isDeleted
  }

  predicate LiveDir(s: Settings, n: CacheNode, p: Path) {
    Live(s, n, p) && Chosen(n, s.date).value.isDir
  }

  /** The files that a walk from the node fetches, in order. */
  function Walk(s: Settings, n: CacheNode, p: Path, parent: int): seq<Item>
    decreases n, 1
  {
    if !Live(s, n, p) then []
    else
      var v := Chosen(n, s.date).value;
      if v.isDir then WalkAll(s, n.children, p, v.id) else [Item(p, parent, v)]
  }

  function WalkAll(s: Settings, cs: seq<CacheNode>, p: Path, parent: int): seq<Item>
    decreases cs, 0
  {
    if cs == [] then [] else Walk(s, cs[0], p + [cs[0].name], parent) + WalkAll(s, cs[1..], p, parent)
  }

  /** The nodes at which a walk from the node finds a version, in order. */
  function Seen(s: Settings, n: CacheNode, p: Path): seq<Path>
    decreases n, 2
  {
    if Chosen(n, s.date).None? then [] else [p] + SeenBelow(s, n, p)
  }

  function SeenBelow(s: Settings, n: CacheNode, p: Path): seq<Path>
    decreases n, 1
  {
    if LiveDir(s, n, p) then SeenAll(s, n.children, p) else []
  }

  function SeenAll(s: Settings, cs: seq<CacheNode>, p: Path): seq<Path>
    decreases cs, 0
  {
    if cs == [] then [] else Seen(s, cs[0], p + [cs[0].name]) + SeenAll(s, cs[1..], p)
  }

  /** The file found by following names from the node. */
  function Lookup(s: Settings, n: CacheNode, p: Path, parent: int, rest: Path): Option<Item>
    decreases |rest|
  {
    if !Live(s, n, p) then None
    else
      var v := Chosen(n, s.date).value;
      if rest == [] then (if v.isDir then None else Some(Item(p, parent, v)))
      else
        var c := ChildNamed(n.children, rest[0]);
        if !v.isDir || c.None? then None else Lookup(s, c.value, p + [rest[0]], v.id, rest[1..])
  }

  predicate Reaches(s: Settings, n: CacheNode, p: Path, rest: Path)
    decreases |rest|
  {
    && Chosen(n, s.date).Some?
    && (rest == [] ||
        var c := ChildNamed(n.children, rest[0]);
        LiveDir(s, n, p) && c.Some? && Reaches(s, c.value, p + [rest[0]], rest[1..]))
  }

  function CountAt(items: seq<Item>, f: Path): nat {
    if items == [] then 0 else (if items[0].path == f then 1 else 0) + CountAt(items[1..], f)
  }

  lemma {:induction false} CountAtAppend(a: seq<Item>, b: seq<Item>, f: Path)
    ensures CountAt(a + b, f) == CountAt(a, f) + CountAt(b, f)
  {
    if a == [] {
      assert a + b == b;
    } else {
      assert (a + b)[0] == a[0] && (a + b)[1..] == a[1..] + b;
      CountAtAppend(a[1..], b, f);
    }
  }

  function BelowName(p: Path, f: Path): (r: Path)
    requires p < f
    ensures r == f[|p| + 1..]
    ensures forall name :: p + [name] <= f <==> name == f[|p|]
  {
    assert forall name :: p + [name] <= f <==> name == f[|p|] by {
      assert f[..|p|] == p && f[..|p| + 1] == p + [f[|p|]];
      forall name | p + [name] <= f ensures name == f[|p|] {
        assert f[|p|] == (p + [name])[|p|];
      }
    }
    f[|p| + 1..]
  }

  lemma NotBelowSelf(p: Path, name: string, f: Path)
    ensures p + [name] <= f ==> p < f
  {
    if p + [name] <= f {
      assert f[..|p|] == f[..|p| + 1][..|p|] == p;
    }
  }

  /** A walk fetches a file exactly once if following names finds it, and not at all otherwise. */
  lemma {:induction false} WalkCount(s: Settings, n: CacheNode, p: Path, parent: int, f: Path)
    requires WellFormed(n)
    ensures CountAt(Walk(s, n, p, parent), f) == if p <= f && Lookup(s, n, p, parent, f[|p|..]).Some? then 1 else 0
    decreases n, 1
  {
    if LiveDir(s, n, p) {
      WalkAllCount(s, n.children, p, Chosen(n, s.date).value.id, f);
      if p < f {
        var _ := BelowName(p, f);
        assert f[|p|..][1..] == f[|p| + 1..];
      }
    } else if Live(s, n, p) {
      assert Walk(s, n, p, parent)[1..] == [];
    }
  }

  lemma {:induction false} WalkAllCount(s: Settings, cs: seq<CacheNode>, p: Path, parent: int, f: Path)
    requires forall i, j :: 0 <= i < j < |cs| ==> cs[i].name != cs[j].name
    requires forall c :: c in cs ==> WellFormed(c)
    ensures CountAt(WalkAll(s, cs, p, parent), f) ==
            if p < f && ChildNamed(cs, f[|p|]).Some? &&
               Lookup(s, ChildNamed(cs, f[|p|]).value, p + [f[|p|]], parent, f[|p| + 1..]).Some? then 1 else 0
    decreases cs, 0
  {
    if cs != [] {
      var q := p + [cs[0].name];
      NotBelowSelf(p, cs[0].name, f);
      if p < f { var _ := BelowName(p, f); }
      assert forall c :: c in cs[1..] ==> c in cs && c.name != cs[0].name;
      WalkCount(s, cs[0], q, parent, f);
      WalkAllCount(s, cs[1..], p, parent, f);
      CountAtAppend(Walk(s, cs[0], q, parent), WalkAll(s, cs[1..], p, parent), f);
    }
  }

  /** Every item of a walk is the one that following names finds. */
  lemma {:induction false} WalkItems(s: Settings, n: CacheNode, p: Path, parent: int, x: Item)
    requires WellFormed(n) && x in Walk(s, n, p, parent)
    ensures p <= x.path && Lookup(s, n, p, parent, x.path[|p|..]) == Some(x)
    decreases n, 1
  {
    if LiveDir(s, n, p) {
      WalkAllItems(s, n.children, p, Chosen(n, s.date).value.id, x);
      assert x.path[|p|..][1..] == x.path[|p| + 1..];
    }
  }

  lemma {:induction false} WalkAllItems(s: Settings, cs: seq<CacheNode>, p: Path, parent: int, x: Item)
    requires forall i, j :: 0 <= i < j < |cs| ==> cs[i].name != cs[j].name
    requires forall c :: c in cs ==> WellFormed(c)
    requires x in WalkAll(s, cs, p, parent)
    ensures p < x.path && ChildNamed(cs, x.path[|p|]).Some?
    ensures Lookup(s, ChildNamed(cs, x.path[|p|]).value, p + [x.path[|p|]], parent, x.path[|p| + 1..]) == Some(x)
    decreases cs, 0
  {
    var q := p + [cs[0].name];
    assert forall c :: c in cs[1..] ==> c in cs && c.name != cs[0].name;
    if x in Walk(s, cs[0], q, parent) {
      WalkItems(s, cs[0], q, parent, x);
      NotBelowSelf(p, cs[0].name, x.path);
      var _ := BelowName(p, x.path);
    } else {
      WalkAllItems(s, cs[1..], p, parent, x);
    }
  }

  lemma {:induction false} SeenIsReached(s: Settings, n: CacheNode, p: Path, q: Path)
    requires WellFormed(n)
    ensures q in Seen(s, n, p) <==> p <= q && Reaches(s, n, p, q[|p|..])
    ensures q in SeenBelow(s, n, p) <==> p < q && Reaches(s, n, p, q[|p|..])
    decreases n, 1
  {
    if LiveDir(s, n, p) {
      SeenAllIsReached(s, n.children, p, q);
      if p < q {
        assert q[|p|..][1..] == q[|p| + 1..];
      }
    }
    assert p <= q ==> p == q || p < q;
  }

  lemma {:induction false} SeenAllIsReached(s: Settings, cs: seq<CacheNode>, p: Path, q: Path)
    requires forall i, j :: 0 <= i < j < |cs| ==> cs[i].name != cs[j].name
    requires forall c :: c in cs ==> WellFormed(c)
    ensures q in SeenAll(s, cs, p) <==>
            p < q && ChildNamed(cs, q[|p|]).Some? && Reaches(s, ChildNamed(cs, q[|p|]).value, p + [q[|p|]], q[|p| + 1..])
    decreases cs, 0
  {
    if cs != [] {
      NotBelowSelf(p, cs[0].name, q);
      if p < q { var _ := BelowName(p, q); }
      assert forall c :: c in cs[1..] ==> c in cs && c.name != cs[0].name;
      SeenIsReached(s, cs[0], p + [cs[0].name], q);
      SeenAllIsReached(s, cs[1..], p, q);
    }
  }

  /** After `j` names of `rest` there is a node to walk through, or at the end of them a file to fetch. */
  ghost predicate WalkedThrough(s: Settings, n: CacheNode, p: Path, rest: Path, j: int) {
    && 0 <= j <= |rest| && NodeAt(n, rest[..j]).Some? && p + rest[..j] !in s.excluded
    && var v := Chosen(NodeAt(n, rest[..j]).value, s.date);
       v.Some? && !v.value.isDeleted && (v.value.isDir <==> j < |rest|)
  }

  /** Following names finds a file exactly if there is such a node after every number of them. */
  lemma {:induction false} LookupExactly(s: Settings, n: CacheNode, p: Path, parent: int, rest: Path)
    ensures Lookup(s, n, p, parent, rest).Some? <==> forall j :: 0 <= j <= |rest| ==> WalkedThrough(s, n, p, rest, j)
    decreases |rest|
  {
    hide WalkedThrough;
    WalkedFirst(s, n, p, rest);
    if rest != [] && LiveDir(s, n, p) && ChildNamed(n.children, rest[0]).Some? {
      var c := ChildNamed(n.children, rest[0]).value;
      LookupExactly(s, c, p + [rest[0]], Chosen(n, s.date).value.id, rest[1..]);
      forall j | 0 < j <= |rest|
        ensures WalkedThrough(s, n, p, rest, j) <==> WalkedThrough(s, c, p + [rest[0]], rest[1..], j - 1)
      {
        WalkedStep(s, n, p, rest, j);
      }
      assert forall j :: 0 <= j <= |rest[1..]| ==>
               (WalkedThrough(s, n, p, rest, j + 1) <==> WalkedThrough(s, c, p + [rest[0]], rest[1..], j));
    } else if rest != [] && ChildNamed(n.children, rest[0]).None? {
      WalkedSecond(s, n, p, rest);
    }
  }

  lemma WalkedFirst(s: Settings, n: CacheNode, p: Path, rest: Path)
    ensures WalkedThrough(s, n, p, rest, 0) <==> Live(s, n, p) && (Chosen(n, s.date).value.isDir <==> rest != [])
  {
    assert rest[..0] == [] && p + [] == p;
  }

  lemma WalkedSecond(s: Settings, n: CacheNode, p: Path, rest: Path)
    requires rest != [] && ChildNamed(n.children, rest[0]).None?
    ensures !WalkedThrough(s, n, p, rest, 1)
  {
    assert rest[..1] == [rest[0]];
  }

  lemma WalkedStep(s: Settings, n: CacheNode, p: Path, rest: Path, j: nat)
    requires 0 < j <= |rest| && ChildNamed(n.children, rest[0]).Some?
    ensures WalkedThrough(s, n, p, rest, j) <==>
            WalkedThrough(s, ChildNamed(n.children, rest[0]).value, p + [rest[0]], rest[1..], j - 1)
  {
    assert rest[..j][0] == rest[0] && rest[..j][1..] == rest[1..][..j - 1];
    assert p + rest[..j] == p + [rest[0]] + rest[1..][..j - 1];
  }

  /** A walk that finds a file comes through every node on the way, and a walk from there finds the file too. */
  lemma {:induction false} LookupThrough(s: Settings, n: CacheNode, p: Path, parent: int, a: Path, b: Path, m: CacheNode, other: int)
    requires NodeAt(n, a) == Some(m)
    ensures Lookup(s, n, p, parent, a + b).Some? <==> Reaches(s, n, p, a) && Lookup(s, m, p + a, other, b).Some?
    decreases |a|
  {
    if a == [] {
      assert a + b == b && p + a == p;
      ParentIsNoMatter(s, n, p, parent, other, b);
    } else {
      assert (a + b)[0] == a[0] && (a + b)[1..] == a[1..] + b && p + a == p + [a[0]] + a[1..];
      var c := ChildNamed(n.children, a[0]).value;
      if LiveDir(s, n, p) {
        LookupThrough(s, c, p + [a[0]], Chosen(n, s.date).value.id, a[1..], b, m, other);
      }
    }
  }

  lemma ParentIsNoMatter(s: Settings, n: CacheNode, p: Path, parent: int, other: int, rest: Path)
    ensures Lookup(s, n, p, parent, rest).Some? <==> Lookup(s, n, p, other, rest).Some?
  {
  }
}
