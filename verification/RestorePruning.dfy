/**
 * The two passes of a restore over the list of marks (RestoreProgressPanel::StartRestore): the
 * counting pass drops include entries that an earlier one covers, and the plan of the restoring
 * pass then has every selected file in it exactly once.
 */
module RestorePruning {
  import opened Common
  import opened LocalPath
  import opened RestoreSelection
  import opened RestorePlan

  // ----- what one include entry stands for -----

  /** The id of the directory of a node, as the restore of an include entry looks it up. */
  function ParentId(root: CacheNode, p: Path): int {
    if p == [] then -1
    else
      var up := NodeAt(root, p[..|p| - 1]);
      if up.None? || MostRecent(up.value.versions).None? then -1 else MostRecent(up.value.versions).value.id
  }

  function WalkFrom(s: Settings, root: CacheNode, r: Path): seq<Item> {
    var n := NodeAt(root, r);
    if n.None? then [] else Walk(s, n.value, r, ParentId(root, r))
  }

  function SeenFrom(s: Settings, root: CacheNode, r: Path): seq<Path> {
    var n := NodeAt(root, r);
    if n.None? then [] else SeenBelow(s, n.value, r)
  }

  /** Following names from the node `r` finds the file `f`. */
  predicate Finds(s: Settings, root: CacheNode, r: Path, f: Path) {
    r <= f && NodeAt(root, r).Some? && Lookup(s, NodeAt(root, r).value, r, ParentId(root, r), f[|r|..]).Some?
  }

  lemma WalkFromCount(s: Settings, root: CacheNode, r: Path, f: Path)
    requires WellFormed(root)
    ensures CountAt(WalkFrom(s, root, r), f) == if Finds(s, root, r, f) then 1 else 0
  {
    if NodeAt(root, r).Some? {
      WellFormedAt(root, r);
      WalkCount(s, NodeAt(root, r).value, r, ParentId(root, r), f);
    }
  }

  lemma SeenFromIsBelow(s: Settings, root: CacheNode, r: Path, q: Path)
    requires WellFormed(root) && q in SeenFrom(s, root, r)
    ensures r < q && NodeAt(root, r).Some?
  {
    WellFormedAt(root, r);
    SeenIsReached(s, NodeAt(root, r).value, r, q);
  }

  /** A file is found from above exactly when the walk from above sees the lower node, and the file is found from there. */
  lemma FindsThrough(s: Settings, root: CacheNode, high: Path, low: Path, f: Path)
    requires WellFormed(root) && high < low <= f && NodeAt(root, high).Some? && NodeAt(root, low).Some?
    ensures Finds(s, root, high, f) <==> low in SeenFrom(s, root, high) && Finds(s, root, low, f)
  {
    hide Lookup, Reaches, NodeAt, WellFormed, SeenBelow;
    var n, m, a, b := NodeAt(root, high).value, NodeAt(root, low).value, low[|high|..], f[|low|..];
    assert low == high + a && f == low + b && f[|high|..] == a + b;
    NodeAtAppend(root, high, a);
    WellFormedAt(root, high);
    SeenIsReached(s, n, high, low);
    LookupThrough(s, n, high, ParentId(root, high), a, b, m, ParentId(root, low));
  }

  // ----- the counting pass -----

  /** The loop over the entries at a node stops at an exclude entry; an include entry after it is not noticed. */
  predicate ExcludedFirst(es: seq<SpecEntry>, p: Path) {
    if es == [] then false
    else if es[0].node == p then !es[0].isInclude
    else ExcludedFirst(es[1..], p)
  }

  function DropRedundant(es: seq<SpecEntry>, p: Path): seq<SpecEntry> {
    if ExcludedFirst(es, p) then es else RemoveEntry(es, SpecEntry(p, true))
  }

  function Dropped(es: seq<SpecEntry>, ps: seq<Path>): seq<SpecEntry>
    decreases ps
  {
    if ps == [] then es else Dropped(DropRedundant(es, ps[0]), ps[1..])
  }

  /** The entries left when the entries in `todo` have been counted; one that has been dropped is skipped. */
  function CountPass(s: Settings, root: CacheNode, now: seq<SpecEntry>, todo: seq<SpecEntry>): seq<SpecEntry>
    decreases todo
  {
    if todo == [] then now
    else
      var e := todo[0];
      CountPass(s, root, if e.isInclude && e in now then Dropped(now, SeenFrom(s, root, e.node)) else now, todo[1..])
  }

  /** The files that the pass counts. */
  function Counted(s: Settings, root: CacheNode, now: seq<SpecEntry>, todo: seq<SpecEntry>): seq<Item>
    decreases todo
  {
    if todo == [] then []
    else
      var e := todo[0];
      if e.isInclude && e in now
      then WalkFrom(s, root, e.node) + Counted(s, root, Dropped(now, SeenFrom(s, root, e.node)), todo[1..])
      else Counted(s, root, now, todo[1..])
  }

  function Survivors(s: Settings, root: CacheNode, es: seq<SpecEntry>): seq<SpecEntry> {
    CountPass(s, root, es, es)
  }

  /** The files that the restoring pass fetches for the entries of `todo` that are kept. */
  function PlanOf(s: Settings, root: CacheNode, todo: seq<SpecEntry>, kept: seq<SpecEntry>): seq<Item> {
    if todo == [] then []
    else (if todo[0].isInclude && todo[0] in kept then WalkFrom(s, root, todo[0].node) else []) + PlanOf(s, root, todo[1..], kept)
  }

  function Plan(s: Settings, root: CacheNode, es: seq<SpecEntry>): seq<Item> {
    PlanOf(s, root, Survivors(s, root, es), Survivors(s, root, es))
  }

  lemma {:induction false} RemoveAbsent(es: seq<SpecEntry>, e: SpecEntry)
    requires e !in es
    ensures RemoveEntry(es, e) == es
  {
    if es != [] { RemoveAbsent(es[1..], e); }
  }

  lemma {:induction false} ExcludedFirstIsExcluded(es: seq<SpecEntry>, p: Path)
    requires ExcludedFirst(es, p)
    ensures Excluded(es, p)
  {
    if es[0].node != p { ExcludedFirstIsExcluded(es[1..], p); }
  }

  lemma {:induction false} DroppingOthersKeepsFirst(es: seq<SpecEntry>, e: SpecEntry, p: Path)
    requires e.node != p
    ensures ExcludedFirst(RemoveEntry(es, e), p) == ExcludedFirst(es, p)
  {
    if es != [] && es[0] != e {
      DroppingOthersKeepsFirst(es[1..], e, p);
      assert RemoveEntry(es, e)[1..] == RemoveEntry(es[1..], e);
    }
  }

  /** Exactly the noticed include entries of the nodes in `ps` go. */
  lemma {:induction false} DroppedMembers(es: seq<SpecEntry>, ps: seq<Path>)
    requires Ordered(es)
    ensures Ordered(Dropped(es, ps))
    ensures forall e :: e in Dropped(es, ps) <==> e in es && !(e.isInclude && e.node in ps && !ExcludedFirst(es, e.node))
    decreases ps
  {
    if ps != [] {
      var p := ps[0];
      var next := DropRedundant(es, p);
      RemoveKeepsOrder(es, SpecEntry(p, true));
      DroppedMembers(next, ps[1..]);
      forall e | e in es
        ensures e in Dropped(es, ps) <==> !(e.isInclude && e.node in ps && !ExcludedFirst(es, e.node))
      {
        if e.node != p { DroppingOthersKeepsFirst(es, SpecEntry(p, true), e.node); }
      }
    }
  }

  lemma {:induction false} DroppedAppend(es: seq<SpecEntry>, a: seq<Path>, b: seq<Path>)
    ensures Dropped(es, a + b) == Dropped(Dropped(es, a), b)
    decreases a
  {
    if a == [] {
      assert a + b == b;
    } else {
      assert (a + b)[0] == a[0] && (a + b)[1..] == a[1..] + b;
      DroppedAppend(DropRedundant(es, a[0]), a[1..], b);
    }
  }

  lemma DroppedKeepsExcludes(es: seq<SpecEntry>, ps: seq<Path>)
    requires Ordered(es)
    ensures Excludes(Dropped(es, ps)) == Excludes(es)
  {
    DroppedMembers(es, ps);
  }

  /** Of the entries that go, each was below an entry that was counted. */
  lemma {:induction false} PassMembers(s: Settings, root: CacheNode, now: seq<SpecEntry>, todo: seq<SpecEntry>)
    requires Ordered(now)
    ensures var kept := CountPass(s, root, now, todo);
            && Ordered(kept) && Excludes(kept) == Excludes(now)
            && (forall e :: e in kept ==> e in now)
            && forall e :: e in now && e !in kept ==>
                 e.isInclude && exists r :: r in todo && r.isInclude && e.node in SeenFrom(s, root, r.node)
    decreases todo
  {
    hide Ordered, Dropped, SeenFrom;
    if todo != [] {
      var e := todo[0];
      var seen := SeenFrom(s, root, e.node);
      DroppedMembers(now, seen);
      DroppedKeepsExcludes(now, seen);
      PassMembers(s, root, if e.isInclude && e in now then Dropped(now, seen) else now, todo[1..]);
    }
  }

  /** No entry that is kept is below another one that is kept, unless it is for an excluded node. */
  lemma {:induction false} KeptApart(s: Settings, root: CacheNode, now: seq<SpecEntry>, todo: seq<SpecEntry>, high: SpecEntry, low: SpecEntry)
    requires Ordered(now) && high in todo && high.isInclude && low.isInclude
    requires high in CountPass(s, root, now, todo) && low in CountPass(s, root, now, todo)
    requires !Excluded(now, low.node)
    ensures low.node !in SeenFrom(s, root, high.node)
    decreases todo
  {
    hide Ordered, Dropped, SeenFrom;
    var e := todo[0];
    var seen := SeenFrom(s, root, e.node);
    var next := if e.isInclude && e in now then Dropped(now, seen) else now;
    DroppedMembers(now, seen);
    PassMembers(s, root, next, todo[1..]);
    if e == high {
      if ExcludedFirst(now, low.node) { ExcludedFirstIsExcluded(now, low.node); }
    } else {
      KeptApart(s, root, next, todo[1..], high, low);
    }
  }

  // ----- every selected file is in the plan exactly once -----

  ghost predicate InTree(root: CacheNode, es: seq<SpecEntry>) {
    forall e :: e in es ==> NodeAt(root, e.node).Some?
  }

  /** Some include entry is for the file, or for a directory above with nothing excluded or deleted on the way. */
  ghost predicate Selected(s: Settings, root: CacheNode, es: seq<SpecEntry>, f: Path) {
    exists r :: SpecEntry(r, true) in es && Finds(s, root, r, f)
  }

  lemma {:induction false} SomeSurvivorFinds(s: Settings, root: CacheNode, es: seq<SpecEntry>, r: Path, f: Path) returns (top: Path)
    requires WellFormed(root) && Ordered(es) && InTree(root, es)
    requires SpecEntry(r, true) in es && Finds(s, root, r, f)
    ensures SpecEntry(top, true) in Survivors(s, root, es) && Finds(s, root, top, f) && top <= r
    decreases |r|
  {
    hide Finds, Ordered, CountPass, SeenFrom, WellFormed;
    PassMembers(s, root, es, es);
    if SpecEntry(r, true) in Survivors(s, root, es) {
      top := r;
    } else {
      var e :| e in es && e.isInclude && r in SeenFrom(s, root, e.node);
      SeenFromIsBelow(s, root, e.node, r);
      FindsIsBelow(s, root, r, f);
      FindsThrough(s, root, e.node, r, f);
      assert SpecEntry(e.node, true) == e;
      top := SomeSurvivorFinds(s, root, es, e.node, f);
    }
  }

  lemma FindsIsBelow(s: Settings, root: CacheNode, r: Path, f: Path)
    requires Finds(s, root, r, f)
    ensures r <= f && NodeAt(root, r).Some? && r !in s.excluded
  {
  }

  lemma OneSurvivorFinds(s: Settings, root: CacheNode, es: seq<SpecEntry>, q: Path, r: Path, f: Path)
    requires WellFormed(root) && Ordered(es) && s.excluded == Excludes(es)
    requires SpecEntry(q, true) in Survivors(s, root, es) && Finds(s, root, q, f)
    requires SpecEntry(r, true) in Survivors(s, root, es) && Finds(s, root, r, f)
    ensures q == r
  {
    hide Finds, Ordered, CountPass, SeenFrom, WellFormed;
    PassMembers(s, root, es, es);
    FindsIsBelow(s, root, q, f);
    FindsIsBelow(s, root, r, f);
    assert q == f[..|q|] && r == f[..|r|];
    if |q| < |r| {
      assert q == r[..|q|];
      FindsThrough(s, root, q, r, f);
      KeptApart(s, root, es, es, SpecEntry(q, true), SpecEntry(r, true));
    } else if |r| < |q| {
      assert r == q[..|r|];
      FindsThrough(s, root, r, q, f);
      KeptApart(s, root, es, es, SpecEntry(r, true), SpecEntry(q, true));
    }
  }

  lemma {:induction false} PlanCount(s: Settings, root: CacheNode, todo: seq<SpecEntry>, kept: seq<SpecEntry>, f: Path, top: Option<Path>)
    requires WellFormed(root) && Ordered(todo)
    requires forall r :: SpecEntry(r, true) in kept && Finds(s, root, r, f) <==> top == Some(r)
    ensures CountAt(PlanOf(s, root, todo, kept), f) == if top.Some? && SpecEntry(top.value, true) in todo then 1 else 0
  {
    if todo != [] {
      var e := todo[0];
      assert e.isInclude ==> e == SpecEntry(e.node, true);
      WalkFromCount(s, root, e.node, f);
      PlanCount(s, root, todo[1..], kept, f, top);
      CountAtAppend(if e.isInclude && e in kept then WalkFrom(s, root, e.node) else [], PlanOf(s, root, todo[1..], kept), f);
    }
  }

  /** The plan has a selected file in it once, and no other file. */
  lemma FetchedOnce(s: Settings, root: CacheNode, es: seq<SpecEntry>, f: Path)
    requires WellFormed(root) && Ordered(es) && InTree(root, es) && s.excluded == Excludes(es)
    ensures CountAt(Plan(s, root, es), f) == if Selected(s, root, es, f) then 1 else 0
  {
    hide Finds, Ordered, CountPass, PlanOf, WellFormed;
    var kept := Survivors(s, root, es);
    PassMembers(s, root, es, es);
    if Selected(s, root, es, f) {
      var r :| SpecEntry(r, true) in es && Finds(s, root, r, f);
      var top := SomeSurvivorFinds(s, root, es, r, f);
      forall q | SpecEntry(q, true) in kept && Finds(s, root, q, f)
        ensures q == top
      {
        OneSurvivorFinds(s, root, es, q, top, f);
      }
      PlanCount(s, root, kept, kept, f, Some(top));
    } else {
      PlanCount(s, root, kept, kept, f, None);
    }
  }

  /**
   * What is fetched for a file is the version chosen for it, from the directory it is in: where it has
   * been found from above by the id of the version chosen for that, and otherwise by that of its most recent one.
   */
  lemma {:induction false} FetchedVersion(s: Settings, root: CacheNode, todo: seq<SpecEntry>, kept: seq<SpecEntry>, x: Item) returns (r: Path)
    requires WellFormed(root) && x in PlanOf(s, root, todo, kept)
    ensures NodeAt(root, x.path).Some? && Some(x.version) == Chosen(NodeAt(root, x.path).value, s.date)
    ensures !x.version.isDeleted && !x.version.isDir
    ensures SpecEntry(r, true) in kept && Finds(s, root, r, x.path)
    ensures r == x.path ==> x.parent == ParentId(root, x.path)
    ensures r != x.path ==>
              && x.path != [] && NodeAt(root, x.path[..|x.path| - 1]).Some?
              && var up := Chosen(NodeAt(root, x.path[..|x.path| - 1]).value, s.date); up.Some? && up.value.isDir && x.parent == up.value.id
  {
    r := todo[0].node;
    if x in PlanOf(s, root, todo[1..], kept) {
      r := FetchedVersion(s, root, todo[1..], kept, x);
    } else {
      assert todo[0] == SpecEntry(r, true);
      var n := NodeAt(root, r).value;
      WellFormedAt(root, r);
      WalkItems(s, n, r, ParentId(root, r), x);
      LookupIsChosen(s, n, r, ParentId(root, r), x.path[|r|..]);
      assert r + x.path[|r|..] == x.path;
      NodeAtAppend(root, r, x.path[|r|..]);
      if x.path != r {
        var rest := x.path[|r|..];
        assert x.path[..|x.path| - 1] == r + rest[..|rest| - 1];
        NodeAtAppend(root, r, rest[..|rest| - 1]);
      }
    }
  }

  /**
   * Every item of a plan has the version that the date, or its absence, asks for, and it is asked for
   * by the id of a version of the directory that it is in: the most recent or the one chosen.
   */
  lemma FetchedVersionExactly(s: Settings, root: CacheNode, es: seq<SpecEntry>, x: Item)
    requires WellFormed(root) && x in Plan(s, root, es)
    ensures NodeAt(root, x.path).Some? && !x.version.isDeleted && !x.version.isDir
    ensures var vs := NodeAt(root, x.path).value.versions;
            match s.date
            case None =>
              exists i :: 0 <= i < |vs| && x.version == vs[i] &&
                (forall j :: 0 <= j < |vs| ==> vs[j].id <= vs[i].id) && (forall j :: 0 <= j < i ==> vs[j].id < vs[i].id)
            case Some(d) =>
              exists i :: 0 <= i < |vs| && x.version == vs[i] && vs[i].time <= d &&
                (forall j :: 0 <= j < |vs| && vs[j].time <= d ==> vs[j].time <= vs[i].time) &&
                (forall j :: i < j < |vs| && vs[j].time <= d ==> vs[j].time < vs[i].time)
    ensures x.path == [] ==> x.parent == -1
    ensures x.path != [] ==>
              && NodeAt(root, x.path[..|x.path| - 1]).Some?
              && var up := NodeAt(root, x.path[..|x.path| - 1]).value;
                 if up.versions == [] then x.parent == -1
                 else exists v :: v in up.versions && x.parent == v.id &&
                        ((forall w :: w in up.versions ==> w.id <= v.id) || (Some(v) == Chosen(up, s.date) && v.isDir))
  {
    hide PlanOf, Survivors, WellFormed, NodeAt, Chosen;
    var kept := Survivors(s, root, es);
    var _ := FetchedVersion(s, root, kept, kept, x);
    var n := NodeAt(root, x.path).value;
    ChosenExactly(n, s.date);
    if x.path != [] {
      NodeAtParent(root, x.path);
      var up := NodeAt(root, x.path[..|x.path| - 1]).value;
      ParentIsGreatest(up);
      ChosenIsVersion(up, s.date);
    }
  }

  lemma NodeAtParent(root: CacheNode, p: Path)
    requires NodeAt(root, p).Some? && p != []
    ensures NodeAt(root, p[..|p| - 1]).Some?
  {
    NodeAtPrefix(root, p, |p| - 1);
  }

  lemma ParentIsGreatest(up: CacheNode)
    ensures up.versions == [] ==> MostRecent(up.versions) == None
    ensures up.versions != [] ==> MostRecent(up.versions).Some? && MostRecent(up.versions).value in up.versions
    ensures up.versions != [] ==> forall w :: w in up.versions ==> w.id <= MostRecent(up.versions).value.id
  {
    hide MostRecent;
    MostRecentIsGreatest(up.versions);
    if up.versions != [] {
      var i :| HasGreatestId(up.versions, i) && MostRecent(up.versions) == Some(up.versions[i]);
      forall w | w in up.versions
        ensures w.id <= up.versions[i].id
      {
        var j :| 0 <= j < |up.versions| && up.versions[j] == w;
      }
    }
  }

  lemma ChosenIsVersion(n: CacheNode, date: Option<int>)
    ensures Chosen(n, date).Some? ==> Chosen(n, date).value in n.versions
  {
    hide Chosen;
    ChosenExactly(n, date);
    assert forall i :: 0 <= i < |n.versions| ==> n.versions[i] in n.versions;
  }

  lemma {:induction false} LookupIsChosen(s: Settings, n: CacheNode, p: Path, parent: int, rest: Path)
    requires Lookup(s, n, p, parent, rest).Some?
    ensures var x := Lookup(s, n, p, parent, rest).value;
            && NodeAt(n, rest).Some? && Some(x.version) == Chosen(NodeAt(n, rest).value, s.date)
            && !x.version.isDeleted && !x.version.isDir
            && (rest == [] ==> x.parent == parent)
            && (rest != [] ==>
                 NodeAt(n, rest[..|rest| - 1]).Some? &&
                 var up := Chosen(NodeAt(n, rest[..|rest| - 1]).value, s.date); up.Some? && up.value.isDir && x.parent == up.value.id)
    decreases |rest|
  {
    if rest != [] {
      var c := ChildNamed(n.children, rest[0]).value;
      LookupIsChosen(s, c, p + [rest[0]], Chosen(n, s.date).value.id, rest[1..]);
      if |rest| > 1 {
        assert rest[..|rest| - 1][0] == rest[0] && rest[..|rest| - 1][1..] == rest[1..][..|rest[1..]| - 1];
      } else {
        assert rest[..|rest| - 1] == [];
      }
    }
  }

  // ----- what is counted is what is fetched -----

  lemma HeadIsFirst(es: seq<SpecEntry>, r: SpecEntry)
    requires Ordered(es) && r in es
    ensures r == es[0] || !SortsAfter(es[0], r)
  {
    if r != es[0] {
      var k :| 0 <= k < |es| && es[k] == r;
      assert es[1..][k - 1] == r;
    }
  }

  /** An entry of a sorted list is not below a later one. */
  lemma NotSeenFromLater(s: Settings, root: CacheNode, es: seq<SpecEntry>, r: SpecEntry)
    requires WellFormed(root) && Ordered(es) && InTree(root, es) && r in es
    ensures es[0].node !in SeenFrom(s, root, r.node)
  {
    if es[0].node in SeenFrom(s, root, r.node) {
      hide WellFormed, Ordered, SeenFrom, NodeAt, Less, FullPath;
      HeadIsFirst(es, r);
      SeenFromIsBelow(s, root, r.node, es[0].node);
      WellFormedAt(root, es[0].node);
      AncestorIsLess(r.node, es[0].node);
      assert false;
    }
  }

  /** An entry that is counted is not dropped later. */
  lemma {:induction false} CountedIsPlanned(s: Settings, root: CacheNode, now: seq<SpecEntry>, todo: seq<SpecEntry>)
    requires WellFormed(root) && Ordered(now) && Ordered(todo) && InTree(root, todo)
    ensures Counted(s, root, now, todo) == PlanOf(s, root, todo, CountPass(s, root, now, todo))
    decreases todo
  {
    hide WellFormed, SeenFrom, WalkFrom, Dropped;
    if todo != [] {
      var e := todo[0];
      var seen := SeenFrom(s, root, e.node);
      var next := if e.isInclude && e in now then Dropped(now, seen) else now;
      DroppedMembers(now, seen);
      PassMembers(s, root, now, todo);
      PassMembers(s, root, next, todo[1..]);
      CountedIsPlanned(s, root, next, todo[1..]);
      if e.isInclude && e in now {
        NotSeenFromLater(s, root, todo, e);
        forall r | r in todo[1..]
          ensures e.node !in SeenFrom(s, root, r.node)
        {
          NotSeenFromLater(s, root, todo, r);
        }
      }
    }
  }

  lemma {:induction false} RemoveKeepsPlan(s: Settings, root: CacheNode, es: seq<SpecEntry>, e: SpecEntry, kept: seq<SpecEntry>)
    requires e !in kept
    ensures PlanOf(s, root, RemoveEntry(es, e), kept) == PlanOf(s, root, es, kept)
  {
    hide WalkFrom;
    if es != [] && es[0] != e {
      RemoveKeepsPlan(s, root, es[1..], e, kept);
      assert RemoveEntry(es, e)[1..] == RemoveEntry(es[1..], e);
    }
  }

  lemma {:induction false} DropKeepsPlan(s: Settings, root: CacheNode, es: seq<SpecEntry>, ps: seq<Path>, kept: seq<SpecEntry>)
    requires Ordered(es) && forall e :: e in kept ==> e in Dropped(es, ps)
    ensures PlanOf(s, root, Dropped(es, ps), kept) == PlanOf(s, root, es, kept)
    decreases ps
  {
    hide PlanOf, Ordered, ExcludedFirst, RemoveEntry;
    if ps != [] {
      var own, next := SpecEntry(ps[0], true), DropRedundant(es, ps[0]);
      RemoveKeepsOrder(es, own);
      DroppedMembers(next, ps[1..]);
      if next != es { RemoveKeepsPlan(s, root, es, own, kept); }
      DropKeepsPlan(s, root, next, ps[1..], kept);
    }
  }

  lemma {:induction false} PassKeepsPlan(s: Settings, root: CacheNode, now: seq<SpecEntry>, todo: seq<SpecEntry>)
    requires Ordered(now)
    ensures var kept := CountPass(s, root, now, todo); PlanOf(s, root, kept, kept) == PlanOf(s, root, now, kept)
    decreases todo
  {
    hide PlanOf, Ordered, Dropped, SeenFrom;
    if todo != [] {
      var e := todo[0];
      var seen := SeenFrom(s, root, e.node);
      var next := if e.isInclude && e in now then Dropped(now, seen) else now;
      DroppedMembers(now, seen);
      PassMembers(s, root, next, todo[1..]);
      PassKeepsPlan(s, root, next, todo[1..]);
      if next != now { DropKeepsPlan(s, root, now, seen, CountPass(s, root, now, todo)); }
    }
  }

  /** The counting pass counts the files of the plan, in its order. */
  lemma CountedIsFetched(s: Settings, root: CacheNode, es: seq<SpecEntry>)
    requires WellFormed(root) && Ordered(es) && InTree(root, es)
    ensures Counted(s, root, es, es) == Plan(s, root, es)
  {
    hide Ordered, WellFormed, Counted, PlanOf, CountPass;
    CountedIsPlanned(s, root, es, es);
    PassKeepsPlan(s, root, es, es);
  }

  lemma {:induction false} DroppedKeepsHead(es: seq<SpecEntry>, ps: seq<Path>)
    requires es != [] && es[0].node !in ps
    ensures Dropped(es, ps) != [] && Dropped(es, ps)[0] == es[0]
    decreases ps
  {
    if ps != [] { DroppedKeepsHead(DropRedundant(es, ps[0]), ps[1..]); }
  }

  lemma {:induction false} PassKeepsHead(s: Settings, root: CacheNode, es: seq<SpecEntry>, now: seq<SpecEntry>, todo: seq<SpecEntry>)
    requires WellFormed(root) && Ordered(es) && InTree(root, es) && es != []
    requires now != [] && now[0] == es[0] && forall e :: e in todo ==> e in es
    ensures CountPass(s, root, now, todo) != [] && CountPass(s, root, now, todo)[0] == es[0]
    decreases todo
  {
    hide WellFormed, Ordered, SeenFrom;
    if todo != [] {
      var e := todo[0];
      NotSeenFromLater(s, root, es, e);
      DroppedKeepsHead(now, SeenFrom(s, root, e.node));
      PassKeepsHead(s, root, es, if e.isInclude && e in now then Dropped(now, SeenFrom(s, root, e.node)) else now, todo[1..]);
    }
  }

  // ----- what is fetched, written out -----

  /** At this node there is a version to restore, not deleted, of a directory or, at the end of the way, of a file; nothing excludes it. */
  ghost predicate Fetchable(es: seq<SpecEntry>, date: Option<int>, root: CacheNode, f: Path, j: int) {
    && 0 <= j <= |f| && NodeAt(root, f[..j]).Some? && SpecEntry(f[..j], false) !in es
    && var v := Chosen(NodeAt(root, f[..j]).value, date);
       v.Some? && !v.value.isDeleted && (v.value.isDir <==> j < |f|)
  }

  lemma FindsExactly(s: Settings, root: CacheNode, es: seq<SpecEntry>, r: Path, f: Path)
    requires s.excluded == Excludes(es)
    ensures Finds(s, root, r, f) <==> r <= f && forall j :: |r| <= j <= |f| ==> Fetchable(es, s.date, root, f, j)
  {
    hide Lookup, Fetchable, WalkedThrough;
    if r <= f {
      assert f[..|r|] == r;
      if NodeAt(root, r).Some? {
        var n, rest := NodeAt(root, r).value, f[|r|..];
        LookupExactly(s, n, r, ParentId(root, r), rest);
        forall j | |r| <= j <= |f|
          ensures Fetchable(es, s.date, root, f, j) <==> WalkedThrough(s, n, r, rest, j - |r|)
        {
          WalkedIsFetchable(s, root, es, r, f, j);
        }
        assert forall j :: 0 <= j <= |rest| ==> (Fetchable(es, s.date, root, f, j + |r|) <==> WalkedThrough(s, n, r, rest, j));
      } else {
        NotFetchable(es, s.date, root, f, |r|);
      }
    }
  }

  lemma NotFetchable(es: seq<SpecEntry>, date: Option<int>, root: CacheNode, f: Path, j: nat)
    requires j <= |f| && NodeAt(root, f[..j]).None?
    ensures !Fetchable(es, date, root, f, j)
  {
  }

  lemma WalkedIsFetchable(s: Settings, root: CacheNode, es: seq<SpecEntry>, r: Path, f: Path, j: nat)
    requires s.excluded == Excludes(es) && r <= f && NodeAt(root, r).Some? && |r| <= j <= |f|
    ensures Fetchable(es, s.date, root, f, j) <==> WalkedThrough(s, NodeAt(root, r).value, r, f[|r|..], j - |r|)
  {
    var rest := f[|r|..];
    assert r + rest[..j - |r|] == f[..j];
    NodeAtAppend(root, r, rest[..j - |r|]);
  }

  /**
   * The plan has a file once if there is an include entry for it or for a directory above it, from which
   * down to it every node is there with a version to restore, is not deleted and not excluded. Otherwise not at all.
   */
  lemma FetchedExactly(s: Settings, root: CacheNode, es: seq<SpecEntry>, f: Path)
    requires WellFormed(root) && Ordered(es) && InTree(root, es) && s.excluded == Excludes(es)
    ensures CountAt(Plan(s, root, es), f) ==
            if exists i :: 0 <= i <= |f| && SpecEntry(f[..i], true) in es && forall j :: i <= j <= |f| ==> Fetchable(es, s.date, root, f, j)
            then 1 else 0
  {
    hide Finds, Ordered, WellFormed, Plan, Fetchable;
    FetchedOnce(s, root, es, f);
    forall r
      ensures Finds(s, root, r, f) <==> r <= f && forall j :: |r| <= j <= |f| ==> Fetchable(es, s.date, root, f, j)
    {
      FindsExactly(s, root, es, r, f);
    }
    if Selected(s, root, es, f) {
      var r :| SpecEntry(r, true) in es && Finds(s, root, r, f);
      assert f[..|r|] == r;
    }
    if i :| 0 <= i <= |f| && SpecEntry(f[..i], true) in es && forall j :: i <= j <= |f| ==> Fetchable(es, s.date, root, f, j) {
      assert Finds(s, root, f[..i], f);
    }
  }

  /**
   * By which id of its directory a file is asked for: that of the version chosen for the directory if the
   * file is reached from an entry above it, and else that of the directory's most recent version.
   */
  lemma AskedForFrom(s: Settings, root: CacheNode, es: seq<SpecEntry>, x: Item)
    requires WellFormed(root) && Ordered(es) && InTree(root, es) && s.excluded == Excludes(es) && x in Plan(s, root, es) && x.path != []
    ensures NodeAt(root, x.path[..|x.path| - 1]).Some?
    ensures var f, up := x.path, NodeAt(root, x.path[..|x.path| - 1]).value;
            if exists i :: 0 <= i < |f| && SpecEntry(f[..i], true) in es && forall j :: i <= j <= |f| ==> Fetchable(es, s.date, root, f, j)
            then Chosen(up, s.date).Some? && x.parent == Chosen(up, s.date).value.id
            else if up.versions == [] then x.parent == -1
            else exists v :: v in up.versions && x.parent == v.id && forall w :: w in up.versions ==> w.id <= v.id
  {
    hide Finds, Ordered, WellFormed, PlanOf, CountPass, Fetchable, Chosen, NodeAt;
    var kept, f := Survivors(s, root, es), x.path;
    var r := FetchedVersion(s, root, kept, kept, x);
    PassMembers(s, root, es, es);
    NodeAtParent(root, f);
    FindsExactly(s, root, es, r, f);
    if r != f {
      assert f[..|r|] == r && SpecEntry(r, true) in es;
    } else {
      if i :| 0 <= i < |f| && SpecEntry(f[..i], true) in es && forall j :: i <= j <= |f| ==> Fetchable(es, s.date, root, f, j) {
        FindsExactly(s, root, es, f[..i], f);
        var top := SomeSurvivorFinds(s, root, es, f[..i], f);
        OneSurvivorFinds(s, root, es, top, r, f);
        assert false;
      }
      ParentIsGreatest(NodeAt(root, f[..|f| - 1]).value);
    }
  }

  /** How often a file is in a plan. */
  lemma {:induction false} CountAtExactly(items: seq<Item>, x: Item, f: Path)
    ensures CountAt(items, f) == 0 <==> forall i :: 0 <= i < |items| ==> items[i].path != f
    ensures CountAt([x] + items, f) == CountAt(items, f) + if x.path == f then 1 else 0
  {
    assert ([x] + items)[1..] == items;
    if items != [] {
      CountAtExactly(items[1..], x, f);
      assert forall i :: 0 < i < |items| ==> items[i] == items[1..][i - 1];
    }
  }

  // ----- what is fetched is what the tree shows -----

  /** Nothing on the way down to the file is deleted or without a version. */
  predicate LivePath(date: Option<int>, root: CacheNode, f: Path)
    decreases |f|
  {
    var v := Chosen(root, date);
    && v.Some? && !v.value.isDeleted
    && if f == [] then !v.value.isDir
       else v.value.isDir && ChildNamed(root.children, f[0]).Some? && LivePath(date, ChildNamed(root.children, f[0]).value, f[1..])
  }

  /** That is, all nodes on the way are there, with versions to restore that are not deleted, of directories and at the end of a file. */
  lemma {:induction false} LivePathExactly(date: Option<int>, root: CacheNode, f: Path)
    ensures LivePath(date, root, f) <==> forall j :: 0 <= j <= |f| ==> Fetchable([], date, root, f, j)
    decreases |f|
  {
    hide Fetchable;
    FetchableFirst(date, root, f);
    if f != [] && ChildNamed(root.children, f[0]).Some? {
      var c := ChildNamed(root.children, f[0]).value;
      LivePathExactly(date, c, f[1..]);
      forall j | 0 < j <= |f|
        ensures Fetchable([], date, root, f, j) <==> Fetchable([], date, c, f[1..], j - 1)
      {
        FetchableStep(date, root, f, j);
      }
      assert forall j :: 0 <= j <= |f[1..]| ==> (Fetchable([], date, root, f, j + 1) <==> Fetchable([], date, c, f[1..], j));
    } else if f != [] {
      assert f[..1] == [f[0]];
      NotFetchable([], date, root, f, 1);
    }
  }

  lemma FetchableFirst(date: Option<int>, root: CacheNode, f: Path)
    ensures var v := Chosen(root, date);
            Fetchable([], date, root, f, 0) <==> v.Some? && !v.value.isDeleted && (v.value.isDir <==> f != [])
  {
    assert f[..0] == [];
  }

  lemma FetchableStep(date: Option<int>, root: CacheNode, f: Path, j: nat)
    requires 0 < j <= |f| && ChildNamed(root.children, f[0]).Some?
    ensures Fetchable([], date, root, f, j) <==> Fetchable([], date, ChildNamed(root.children, f[0]).value, f[1..], j - 1)
  {
    assert f[..j][0] == f[0] && f[..j][1..] == f[1..][..j - 1];
  }

  /** Nearest to the node, among it and those above it that have entries, is one with an include entry alone. */
  predicate Passed(es: seq<SpecEntry>, p: Path)
    decreases |p|
  {
    !Excluded(es, p) && (Included(es, p) || (p != [] && Passed(es, p[..|p| - 1])))
  }

  /** Nearest to the node is one with both entries, which would not be included without its own. */
  predicate Clash(es: seq<SpecEntry>, p: Path)
    decreases |p|
  {
    if Included(es, p) || Excluded(es, p) then Included(es, p) && Excluded(es, p) && !ParentMark(es, p).included
    else p != [] && Clash(es, p[..|p| - 1])
  }

  /** In a clash, of the node and those above it the nearest with an entry has both, and the one above that is not included. */
  lemma {:induction false} ClashMeans(es: seq<SpecEntry>, p: Path) returns (q: Path)
    requires Clash(es, p)
    ensures q <= p && SpecEntry(q, true) in es && SpecEntry(q, false) in es
    ensures forall r :: q < r && r <= p ==> SpecEntry(r, true) !in es && SpecEntry(r, false) !in es
    ensures q != [] ==> !MarkAt(es, q[..|q| - 1]).included
    decreases |p|
  {
    q := p;
    if !Included(es, p) && !Excluded(es, p) {
      q := ClashMeans(es, p[..|p| - 1]);
      forall r | q < r && r <= p
        ensures SpecEntry(r, true) !in es && SpecEntry(r, false) !in es
      {
        if r != p { assert r <= p[..|p| - 1]; }
      }
    }
  }

  /** And only in a clash. */
  lemma {:induction false} ClashIf(es: seq<SpecEntry>, p: Path, q: Path)
    requires q <= p && SpecEntry(q, true) in es && SpecEntry(q, false) in es
    requires forall r :: q < r && r <= p ==> SpecEntry(r, true) !in es && SpecEntry(r, false) !in es
    requires q != [] ==> !MarkAt(es, q[..|q| - 1]).included
    ensures Clash(es, p)
    decreases |p|
  {
    if q != p {
      var up := p[..|p| - 1];
      assert q <= up;
      forall r | q < r && r <= up
        ensures SpecEntry(r, true) !in es && SpecEntry(r, false) !in es
      {
        assert r <= p;
      }
      ClashIf(es, up, q);
    }
  }

  /** Two entries on one node are shown as an include, but restored as an exclude. */
  lemma {:induction false} PassedIsShown(es: seq<SpecEntry>, p: Path)
    ensures Passed(es, p) <==> MarkAt(es, p).included && !Clash(es, p)
    decreases |p|
  {
    if p != [] { PassedIsShown(es, p[..|p| - 1]); }
  }

  lemma {:induction false} LiveLookup(s: Settings, n: CacheNode, p: Path, parent: int, f: Path)
    requires LivePath(s.date, n, f)
    ensures Lookup(s, n, p, parent, f).Some? <==> forall j :: 0 <= j <= |f| ==> p + f[..j] !in s.excluded
    decreases |f|
  {
    assert p + f[..0] == p;
    if f != [] {
      LiveLookup(s, ChildNamed(n.children, f[0]).value, p + [f[0]], Chosen(n, s.date).value.id, f[1..]);
      assert forall j :: 0 < j <= |f| ==> p + f[..j] == p + [f[0]] + f[1..][..j - 1];
      forall i | 0 <= i <= |f[1..]|
        ensures p + [f[0]] + f[1..][..i] == p + f[..i + 1]
      {
      }
    }
  }

  lemma {:induction false} LivePathFrom(date: Option<int>, root: CacheNode, f: Path, j: nat)
    requires LivePath(date, root, f) && j <= |f|
    ensures NodeAt(root, f[..j]).Some? && LivePath(date, NodeAt(root, f[..j]).value, f[j..])
    decreases |f|
  {
    if j > 0 {
      assert f[..j][0] == f[0] && f[..j][1..] == f[1..][..j - 1] && f[1..][j - 1..] == f[j..];
      LivePathFrom(date, ChildNamed(root.children, f[0]).value, f[1..], j - 1);
    } else {
      assert f[..j] == [] && f[j..] == f;
    }
  }

  lemma FindsIfNothingExcluded(s: Settings, root: CacheNode, f: Path, i: nat)
    requires LivePath(s.date, root, f) && i <= |f|
    ensures Finds(s, root, f[..i], f) <==> forall j :: i <= j <= |f| ==> f[..j] !in s.excluded
  {
    hide LivePath, Lookup, Finds, NodeAt;
    LivePathFrom(s.date, root, f, i);
    LiveLookup(s, NodeAt(root, f[..i]).value, f[..i], ParentId(root, f[..i]), f[i..]);
    assert f[|f[..i]|..] == f[i..];
    forall j | 0 <= j <= |f[i..]|
      ensures f[..i] + f[i..][..j] == f[..i + j]
    {
    }
    assert forall j :: i <= j <= |f| ==> f[..j] == f[..i] + f[i..][..j - i];
    assert Finds(s, root, f[..i], f) <==> Lookup(s, NodeAt(root, f[..i]).value, f[..i], ParentId(root, f[..i]), f[i..]).Some? by {
      DefinitionOfFinds(s, root, f[..i], f);
    }
  }

  lemma DefinitionOfFinds(s: Settings, root: CacheNode, r: Path, f: Path)
    requires r <= f && NodeAt(root, r).Some?
    ensures Finds(s, root, r, f) <==> Lookup(s, NodeAt(root, r).value, r, ParentId(root, r), f[|r|..]).Some?
  {
  }

  lemma {:induction false} PassedFromSomewhere(es: seq<SpecEntry>, f: Path, k: nat)
    requires k <= |f|
    ensures Passed(es, f[..k]) <==>
            exists i :: 0 <= i <= k && Included(es, f[..i]) && forall j :: i <= j <= k ==> !Excluded(es, f[..j])
  {
    if k > 0 {
      PassedFromSomewhere(es, f, k - 1);
      assert f[..k][..k - 1] == f[..k - 1];
    }
  }

  /** A file that is there with all directories above it is fetched if the tree shows it as included, unless its nearest mark is a clash. */
  lemma FetchedIfShown(s: Settings, root: CacheNode, es: seq<SpecEntry>, f: Path)
    requires WellFormed(root) && Ordered(es) && InTree(root, es) && s.excluded == Excludes(es)
    requires LivePath(s.date, root, f)
    ensures CountAt(Plan(s, root, es), f) == if MarkAt(es, f).included && !Clash(es, f) then 1 else 0
  {
    hide WellFormed, Ordered, Plan, LivePath, Finds, MarkAt, Passed, Clash;
    FetchedOnce(s, root, es, f);
    PassedIsShown(es, f);
    PassedFromSomewhere(es, f, |f|);
    assert f[..|f|] == f;
    if Selected(s, root, es, f) {
      var r :| SpecEntry(r, true) in es && Finds(s, root, r, f);
      FindsIsBelow(s, root, r, f);
      assert r == f[..|r|];
      FindsIfNothingExcluded(s, root, f, |r|);
    }
    if Passed(es, f) {
      var i :| 0 <= i <= |f| && Included(es, f[..i]) && forall j :: i <= j <= |f| ==> !Excluded(es, f[..j]);
      FindsIfNothingExcluded(s, root, f, i);
    }
  }

  lemma {:induction false} NothingAbove(es: seq<SpecEntry>, p: Path)
    requires forall e :: e in es ==> !(e.node <= p)
    ensures MarkAt(es, p) == Unmarked
    decreases |p|
  {
    assert SpecEntry(p, true) !in es by {
      assert p <= p;
    }
    if p != [] {
      assert p[..|p| - 1] <= p;
      NothingAbove(es, p[..|p| - 1]);
    }
  }

  lemma {:induction false} OneAbove(es: seq<SpecEntry>, a: Path, p: Path)
    requires a <= p && SpecEntry(a, true) in es && forall e :: e in es && e.node <= p ==> e == SpecEntry(a, true)
    ensures MarkAt(es, p).included
    decreases |p|
  {
    assert p <= p;
    if p == a {
      if a != [] { NothingAbove(es, a[..|a| - 1]); }
    } else {
      assert a <= p[..|p| - 1] <= p;
      OneAbove(es, a, p[..|p| - 1]);
    }
  }

  lemma NoParentMark(es: seq<SpecEntry>, p: Path)
    requires forall e :: e in es ==> !(e.node < p)
    ensures !ParentMark(es, p).included
  {
    if p != [] {
      var up := p[..|p| - 1];
      assert forall e :: e in es && e.node <= up ==> e.node < p;
      NothingAbove(es, up);
    }
  }

  lemma ParentMarkFrom(es: seq<SpecEntry>, a: Path, p: Path)
    requires a < p && SpecEntry(a, true) in es && forall e :: e in es && e.node < p ==> e == SpecEntry(a, true)
    ensures ParentMark(es, p).included
  {
    var up := p[..|p| - 1];
    assert a <= up && forall e :: e in es && e.node <= up ==> e.node < p;
    OneAbove(es, a, up);
  }

  lemma OneMoreClick(clicks: seq<Path>, p: Path)
    ensures var es, next := AfterClicks(clicks), AfterClicks(clicks + [p]);
            var own := SpecEntry(p, !ParentMark(es, p).included);
            Ordered(next) && (own in es <==> own !in next) && forall e: SpecEntry :: e != own ==> (e in es <==> e in next)
  {
    assert (clicks + [p])[..|clicks|] == clicks;
    ClicksKeepOrder(clicks);
    ToggledIsOneEntry(AfterClicks(clicks), p);
  }

  /** Clicks on a node, a directory above it and both again leave two entries on the node: it is shown as included, and no restore fetches it. */
  lemma ClashByClicks(a: Path, b: Path)
    requires a < b
    ensures var es := AfterClicks([b, a, b, a]); MarkAt(es, b).included && Clash(es, b)
  {
    hide AfterClicks, ParentMark, Ordered;
    NoClicks();
    assert [] + [b] == [b] && [b] + [a] == [b, a] && [b, a] + [b] == [b, a, b] && [b, a, b] + [a] == [b, a, b, a];
    NoParentMark([], b);
    OneMoreClick([], b);
    NoParentMark(AfterClicks([b]), a);
    OneMoreClick([b], a);
    ParentMarkFrom(AfterClicks([b, a]), a, b);
    OneMoreClick([b, a], b);
    NoParentMark(AfterClicks([b, a, b]), a);
    OneMoreClick([b, a, b], a);
    var es := AfterClicks([b, a, b, a]);
    assert forall e :: e in es <==> e == SpecEntry(b, true) || e == SpecEntry(b, false);
    NoParentMark(es, b);
  }

  lemma NoClicks()
    ensures AfterClicks([]) == []
  {
  }

  lemma EntriesAfter(a: Path, x: Path, b: Path)
    requires a < x && !(a <= b) && !(b <= a)
    ensures var es := AfterClicks([a, x, a, b]);
            Ordered(es) && forall e :: e in es <==> e == SpecEntry(x, false) || e == SpecEntry(b, true)
  {
    hide AfterClicks, ParentMark, Ordered;
    NoClicks();
    assert [] + [a] == [a] && [a] + [x] == [a, x] && [a, x] + [a] == [a, x, a] && [a, x, a] + [b] == [a, x, a, b];
    NoParentMark([], a);
    OneMoreClick([], a);
    ParentMarkFrom(AfterClicks([a]), a, x);
    OneMoreClick([a], x);
    NoParentMark(AfterClicks([a, x]), a);
    OneMoreClick([a, x], a);
    assert x < b ==> a <= b;
    NoParentMark(AfterClicks([a, x, a]), b);
    OneMoreClick([a, x, a], b);
  }

  lemma FirstOfTwo(es: seq<SpecEntry>, d: SpecEntry, e: SpecEntry)
    requires Ordered(es) && SortsAfter(e, d) && forall f :: f in es <==> f == d || f == e
    ensures es != [] && es[0] == d
  {
    hide Ordered, SortsAfter;
    assert d in es;
    HeadIsFirst(es, d);
    assert es[0] in es;
  }

  /** Clicks can leave an exclude entry first in the list; nothing is restored from such a list. */
  lemma ExcludeFirstByClicks(a: Path, x: Path, b: Path)
    requires a < x && !(a <= b) && !(b <= a) && Less(FullPath(x), FullPath(b))
    ensures var es := AfterClicks([a, x, a, b]);
            es != [] && es[0] == SpecEntry(x, false) && MarkAt(es, b).included && Included(es, b)
  {
    assert SortsAfter(SpecEntry(b, true), SpecEntry(x, false));
    hide AfterClicks, Ordered, SortsAfter, Less, FullPath;
    var es := AfterClicks([a, x, a, b]);
    EntriesAfter(a, x, b);
    FirstOfTwo(es, SpecEntry(x, false), SpecEntry(b, true));
    assert x < b ==> a <= b;
    NoParentMark(es, b);
  }
}
