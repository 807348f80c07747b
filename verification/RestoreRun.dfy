/**
 * The restore itself (src/RestoreProgressPanel.cc): a pass that counts, a pass that fetches, and
 * the local directories made on the way. A stop request can come at any point where the user
 * interface runs, and listing, fetching or creating something can fail.
 */
module RestoreRun {
  import opened Common
  import opened LocalPath
  import opened RestoreSelection
  import opened RestorePlan
  import opened RestorePruning
  import opened Progress

  datatype Failure =
    | Stopped
    | NoLocalPath(node: Path)
    | NotOnServer(node: Path)
    | AlreadyExists(node: Path)
    | CannotCreate(node: Path)
    | NotListed(node: Path)
    | NotFetched(node: Path)

  function Bytes(items: seq<Item>, blockSize: nat): nat {
    if items == [] then 0 else items[0].version.sizeInBlocks * blockSize + Bytes(items[1..], blockSize)
  }

  lemma {:induction false} BytesAppend(a: seq<Item>, b: seq<Item>, blockSize: nat)
    ensures Bytes(a + b, blockSize) == Bytes(a, blockSize) + Bytes(b, blockSize)
  {
    if a == [] {
      assert a + b == b;
    } else {
      assert (a + b)[0] == a[0] && (a + b)[1..] == a[1..] + b;
      BytesAppend(a[1..], b, blockSize);
    }
  }

  /** Each file counts with its size in blocks. */
  lemma BytesExactly(items: seq<Item>, x: Item, blockSize: nat)
    ensures Bytes([], blockSize) == 0 && Bytes(items + [x], blockSize) == Bytes(items, blockSize) + x.version.sizeInBlocks * blockSize
  {
    BytesAppend(items, [x], blockSize);
    assert [x][1..] == [];
  }

  lemma PrefixHasNoMore(a: seq<Item>, b: seq<Item>, blockSize: nat)
    requires a <= b
    ensures |a| <= |b| && Bytes(a, blockSize) <= Bytes(b, blockSize)
  {
    assert b == a + b[|a|..];
    BytesAppend(a, b[|a|..], blockSize);
  }

  // ----- the version of a node -----

  method GetMostRecent(vs: seq<Version>) returns (best: Option<Version>)
    ensures best == MostRecent(vs)
    ensures if vs == [] then best == None
            else exists i :: 0 <= i < |vs| && best == Some(vs[i]) &&
                   (forall j :: 0 <= j < |vs| ==> vs[j].id <= vs[i].id) && (forall j :: 0 <= j < i ==> vs[j].id < vs[i].id)
  {
    best := None;
    for i := 0 to |vs|
      invariant best == MostRecent(vs[..i])
    {
      assert vs[..i + 1][..i] == vs[..i];
      if best.None? {
        best := Some(vs[i]);
      } else if best.value.id < vs[i].id {
        best := Some(vs[i]);
      }
    }
    assert vs[..|vs|] == vs;
    ChosenExactly(CacheNode("", vs, []), None);
  }

  method GetVersionToRestore(n: CacheNode, date: Option<int>) returns (best: Option<Version>)
    ensures best == Chosen(n, date)
    ensures date.None? ==>
              if n.versions == [] then best == None
              else exists i :: 0 <= i < |n.versions| && best == Some(n.versions[i]) &&
                     (forall j :: 0 <= j < |n.versions| ==> n.versions[j].id <= n.versions[i].id) &&
                     (forall j :: 0 <= j < i ==> n.versions[j].id < n.versions[i].id)
    ensures date.Some? ==>
              if forall i :: 0 <= i < |n.versions| ==> n.versions[i].time > date.value then best == None
              else exists i :: 0 <= i < |n.versions| && best == Some(n.versions[i]) && n.versions[i].time <= date.value &&
                     (forall j :: 0 <= j < |n.versions| && n.versions[j].time <= date.value ==> n.versions[j].time <= n.versions[i].time) &&
                     (forall j :: i < j < |n.versions| && n.versions[j].time <= date.value ==> n.versions[j].time < n.versions[i].time)
  {
    ChosenExactly(n, date);
    var vs := n.versions;
    if date.None? {
      best := GetMostRecent(vs);
      return;
    }
    best := None;
    for i := 0 to |vs|
      invariant best == LatestBefore(vs[..i], date.value)
    {
      assert vs[..i + 1][..i] == vs[..i];
      if vs[i].time > date.value { continue; }
      if best.Some? && vs[i].time < best.value.time { continue; }
      best := Some(vs[i]);
    }
    assert vs[..|vs|] == vs;
  }

  // ----- the entries at a node -----

  lemma {:induction false} ExcludedFirstAt(es: seq<SpecEntry>, p: Path, i: nat)
    requires i < |es| && es[i] == SpecEntry(p, false) && SpecEntry(p, false) !in es[..i]
    ensures ExcludedFirst(es, p) <==> SpecEntry(p, true) !in es[..i]
  {
    if i > 0 {
      assert es[..i] == [es[0]] + es[1..][..i - 1];
      if es[0].node != p {
        ExcludedFirstAt(es[1..], p, i - 1);
      } else {
        assert es[0].isInclude ==> es[0] == SpecEntry(p, true);
      }
    }
  }

  /** Drop what the loop notices to be redundant at `p`, unless `p` is where the walk began. */
  method CheckEntries(spec: RestoreSpec, p: Path, isRoot: bool) returns (stop: bool)
    requires Ordered(spec.entries)
    modifies spec
    ensures stop == Excluded(old(spec.entries), p)
    ensures spec.entries == if isRoot then old(spec.entries) else DropRedundant(old(spec.entries), p)
  {
    hide Ordered, RemoveEntry, ExcludedFirst, Less, FullPath;
    var specs := spec.entries;
    ghost var own := SpecEntry(p, true);
    for i := 0 to |specs|
      invariant SpecEntry(p, false) !in specs[..i]
      invariant spec.entries == if !isRoot && own in specs[..i] then RemoveEntry(specs, own) else specs
    {
      if specs[i].node == p {
        if specs[i].isInclude && !isRoot {
          assert specs[i] == own;
          OnlyOnce(specs, i);
          spec.Remove(specs[i]);
        } else if !specs[i].isInclude {
          ExcludedFirstAt(specs, p, i);
          return true;
        }
      }
    }
    assert specs[..|specs|] == specs;
    if ExcludedFirst(specs, p) { ExcludedFirstIsExcluded(specs, p); }
    if own !in specs { RemoveAbsent(specs, own); }
    return false;
  }

  lemma OnlyOnce(es: seq<SpecEntry>, i: nat)
    requires Ordered(es) && i < |es|
    ensures es[i] !in es[..i]
  {
    forall j | 0 <= j < i ensures es[j] != es[i] { OrderedAt(es, j, i); }
  }

  /** A list that is empty, or begins with an exclude entry, still does. */
  ghost predicate FirstKept(es: seq<SpecEntry>, now: seq<SpecEntry>) {
    && (es == [] ==> now == [])
    && (es != [] && !es[0].isInclude ==> now != [] && now[0] == es[0])
  }

  // ----- steps of the walks -----

  lemma WalkStep(s: Settings, cs: seq<CacheNode>, i: nat, p: Path, parent: int)
    requires i < |cs|
    ensures WalkAll(s, cs[i..], p, parent) == Walk(s, cs[i], p + [cs[i].name], parent) + WalkAll(s, cs[i + 1..], p, parent)
    ensures SeenAll(s, cs[i..], p) == Seen(s, cs[i], p + [cs[i].name]) + SeenAll(s, cs[i + 1..], p)
  {
    assert cs[i..][1..] == cs[i + 1..];
  }

  lemma {:induction false} SeenChild(s: Settings, cs: seq<CacheNode>, i: nat, p: Path, q: Path)
    requires i < |cs| && q in Seen(s, cs[i], p + [cs[i].name])
    ensures q in SeenAll(s, cs, p)
  {
    if i > 0 { SeenChild(s, cs[1..], i - 1, p, q); }
  }

  /** A walk that sees a node below another has seen that one. */
  lemma {:induction false} ReachesOnTheWay(s: Settings, n: CacheNode, p: Path, a: Path, b: Path)
    requires Reaches(s, n, p, a + b)
    ensures Reaches(s, n, p, a)
    decreases |a|
  {
    if a != [] {
      assert (a + b)[0] == a[0] && (a + b)[1..] == a[1..] + b;
      ReachesOnTheWay(s, ChildNamed(n.children, a[0]).value, p + [a[0]], a[1..], b);
    }
  }

  // ----- what is on the local disk -----

  /** The restore of the entry can have made `y`. */
  ghost predicate MadeFor(s: Settings, root: CacheNode, e: SpecEntry, y: Path) {
    e.isInclude && (y <= e.node || y in SeenFrom(s, root, e.node))
  }

  ghost predicate MadeForSome(s: Settings, root: CacheNode, es: seq<SpecEntry>, y: Path) {
    exists e :: e in es && MadeFor(s, root, e, y)
  }

  /** Nothing local is at or below `p`. */
  ghost predicate Free(local: set<Path>, p: Path) {
    forall y :: y in local ==> !(p <= y)
  }

  ghost predicate FreeBelow(local: set<Path>, p: Path) {
    forall y :: y in local ==> !(p < y)
  }

  lemma FreeMeansNot(local: set<Path>, p: Path)
    requires Free(local, p)
    ensures p !in local && FreeBelow(local, p) && FreeBelow(local + {p}, p)
  {
    assert p <= p;
  }

  /** Nothing local is where the children of the node go, from the `i`th on. */
  ghost predicate ChildrenFree(local: set<Path>, n: CacheNode, p: Path, i: nat) {
    forall k :: i <= k < |n.children| ==> Free(local, p + [n.children[k].name])
  }

  lemma ChildrenFreeAtFirst(local: set<Path>, n: CacheNode, p: Path)
    requires FreeBelow(local, p)
    ensures ChildrenFree(local, n, p, 0)
  {
    forall k, y | 0 <= k < |n.children| && y in local && p + [n.children[k].name] <= y
      ensures p < y
    {
      NotBelowSelf(p, n.children[k].name, y);
    }
  }

  ghost predicate Grown(before: set<Path>, now: set<Path>, seen: seq<Path>) {
    forall y :: y in now ==> y in before || y in seen
  }

  lemma GrownAtNode(before: set<Path>, made: set<Path>, now: set<Path>, p: Path, seen: seq<Path>)
    requires (made == before || made == before + {p}) && (made == now || Grown(made, now, seen))
    ensures Grown(before, now, [p] + seen)
  {
  }

  lemma NotGrown(local: set<Path>, seen: seq<Path>)
    ensures Grown(local, local, seen)
  {
  }

  /** What is made for one child is not where the others go. */
  lemma NextChildFree(s: Settings, n: CacheNode, p: Path, i: nat, first: set<Path>, before: set<Path>, now: set<Path>)
    requires WellFormed(n) && i < |n.children|
    requires Grown(before, now, Seen(s, n.children[i], p + [n.children[i].name]))
    requires Grown(first, before, SeenAll(s, n.children, p))
    ensures Grown(first, now, SeenAll(s, n.children, p))
    ensures ChildrenFree(before, n, p, i) ==> ChildrenFree(now, n, p, i + 1)
  {
    var c := n.children[i];
    var q := p + [c.name];
    hide Seen, SeenAll, WellFormed;
    ChildrenWellFormed(n);
    SiblingsApart(n, p, i);
    forall y | y in Seen(s, c, q)
      ensures AtOrBelow(q, y) && y in SeenAll(s, n.children, p)
    {
      SeenIsReached(s, c, q, y);
      SeenChild(s, n.children, i, p, y);
    }
    forall k, y | i < k < |n.children| && y in Seen(s, c, q)
      ensures !(p + [n.children[k].name] <= y)
    {
      assert AtOrBelow(p + [n.children[k].name], y) <==> p + [n.children[k].name] <= y;
    }
  }

  lemma ChildIsFree(local: set<Path>, n: CacheNode, p: Path, i: nat)
    requires i < |n.children| && ChildrenFree(local, n, p, i)
    ensures Free(local, p + [n.children[i].name])
  {
  }

  lemma WalkNone(s: Settings, p: Path, parent: int)
    ensures WalkAll(s, [], p, parent) == []
  {
  }

  lemma ChildrenWellFormed(n: CacheNode)
    requires WellFormed(n)
    ensures forall c :: c in n.children ==> WellFormed(c)
  {
  }

  lemma FetchStep(before: seq<Item>, all: seq<Item>, soFar: seq<Item>, walk: seq<Item>, rest: seq<Item>, now: seq<Item>)
    requires soFar + (walk + rest) == before + all && now <= soFar + walk
    ensures now <= before + all && (now == soFar + walk ==> now + rest == before + all)
  {
    assert soFar + (walk + rest) == (soFar + walk) + rest;
  }

  /** What was restored for earlier entries is not where a later one goes. */
  lemma RoomForEntry(s: Settings, root: CacheNode, es: seq<SpecEntry>, i: nat, y: Path)
    requires WellFormed(root) && Ordered(es) && InTree(root, es) && s.excluded == Excludes(es)
    requires i < |Survivors(s, root, es)| && Survivors(s, root, es)[i].isInclude
    requires MadeForSome(s, root, Survivors(s, root, es)[..i], y)
    ensures Survivors(s, root, es)[i].node in s.excluded || !(Survivors(s, root, es)[i].node <= y)
  {
    hide WellFormed, Ordered, SeenFrom, CountPass, NodeAt, Less, FullPath;
    var kept := Survivors(s, root, es);
    var e := kept[i];
    PassMembers(s, root, es, es);
    var k :| 0 <= k < i && MadeFor(s, root, kept[k], y);
    OrderedAt(kept, k, i);
    var f := kept[k];
    assert e in kept && f in kept;
    WellFormedAt(root, e.node);
    WellFormedAt(root, f.node);
    assert e.node == f.node ==> e == f;
    if e.node < f.node { AncestorIsLess(e.node, f.node); }
    assert e.node <= y <= f.node ==> e.node <= f.node;
    if e.node <= y && y in SeenFrom(s, root, f.node) {
      SeenFromIsBelow(s, root, f.node, y);
      Comparable(e.node, f.node, y);
      if f.node < e.node {
        SeenOnTheWay(s, root, f.node, e.node, y);
        if !Excluded(es, e.node) { KeptApart(s, root, es, es, f, e); }
      }
    }
  }

  lemma Comparable(a: Path, b: Path, y: Path)
    requires a <= y && b <= y
    ensures a < b || a == b || b < a
  {
    assert a == y[..|a|] && b == y[..|b|];
  }

  ghost predicate Placed(s: Settings, root: CacheNode, es: seq<SpecEntry>, local: set<Path>) {
    forall y :: y in local ==> MadeForSome(s, root, es, y)
  }

  lemma NothingPlaced(s: Settings, root: CacheNode, es: seq<SpecEntry>)
    ensures Placed(s, root, es[..0], {})
  {
  }

  lemma RoomForAll(s: Settings, root: CacheNode, es: seq<SpecEntry>, i: nat, local: set<Path>)
    requires WellFormed(root) && Ordered(es) && InTree(root, es) && s.excluded == Excludes(es)
    requires i < |Survivors(s, root, es)| && Survivors(s, root, es)[i].isInclude
    requires Placed(s, root, Survivors(s, root, es)[..i], local)
    ensures Survivors(s, root, es)[i].node in s.excluded || Free(local, Survivors(s, root, es)[i].node)
  {
    hide WellFormed, Ordered, Survivors, Excludes, MadeForSome;
    forall y | y in local
      ensures Survivors(s, root, es)[i].node in s.excluded || !(Survivors(s, root, es)[i].node <= y)
    {
      RoomForEntry(s, root, es, i, y);
    }
  }

  lemma StillFree(before: set<Path>, dirs: set<Path>, files: set<Path>, p: Path)
    requires OnlyAbove(before, dirs, p) && Free(before + files, p)
    ensures Free(dirs + files, p)
  {
    forall y | y in dirs + files
      ensures !(p <= y)
    {
      assert y in before + files || y < p;
    }
  }

  lemma NewIsAbove(before: set<Path>, dirs: set<Path>, files: set<Path>, p: Path)
    requires OnlyAbove(before, dirs, p)
    ensures forall y :: y in dirs + files ==> y in before + files || y <= p
  {
  }

  lemma PlacedMore(s: Settings, root: CacheNode, es: seq<SpecEntry>, i: nat, local: set<Path>)
    requires i < |es| && Placed(s, root, es[..i], local)
    ensures Placed(s, root, es[..i + 1], local)
  {
    assert forall e :: e in es[..i] ==> e in es[..i + 1];
    forall y | y in local
      ensures MadeForSome(s, root, es[..i + 1], y)
    {
      var e :| e in es[..i] && MadeFor(s, root, e, y);
      assert e in es[..i + 1];
    }
  }

  /** What is new is above `p`, or seen by the walk from it. */
  ghost predicate GrownFrom(s: Settings, root: CacheNode, before: set<Path>, now: set<Path>, p: Path) {
    forall y :: y in now ==> y in before || y <= p || y in SeenFrom(s, root, p)
  }

  lemma GrownFromHere(s: Settings, root: CacheNode, p: Path, before: set<Path>, made: set<Path>, now: set<Path>)
    requires NodeAt(root, p).Some? && forall y :: y in made ==> y in before || y <= p
    requires Grown(made, now, Seen(s, NodeAt(root, p).value, p))
    ensures GrownFrom(s, root, before, now, p)
  {
    assert p <= p;
  }

  lemma PlacedStep(s: Settings, root: CacheNode, es: seq<SpecEntry>, i: nat, before: set<Path>, now: set<Path>)
    requires i < |es| && es[i].isInclude && Placed(s, root, es[..i], before)
    requires GrownFrom(s, root, before, now, es[i].node)
    ensures Placed(s, root, es[..i + 1], now)
  {
    PlacedMore(s, root, es, i, before);
    assert es[i] in es[..i + 1];
    forall y | y in now && y !in before
      ensures MadeForSome(s, root, es[..i + 1], y)
    {
      assert MadeFor(s, root, es[i], y);
    }
  }

  lemma PlanStep(s: Settings, root: CacheNode, es: seq<SpecEntry>, i: nat)
    requires i < |es|
    ensures PlanOf(s, root, es[i..], es) ==
            (if es[i].isInclude then WalkFrom(s, root, es[i].node) else []) + PlanOf(s, root, es[i + 1..], es)
  {
    assert es[i..][1..] == es[i + 1..] && es[i] in es;
  }

  lemma NothingPlanned(s: Settings, root: CacheNode, es: seq<SpecEntry>)
    ensures PlanOf(s, root, es[|es|..], es) == []
  {
  }

  lemma SeenOnTheWay(s: Settings, root: CacheNode, r: Path, q: Path, y: Path)
    requires WellFormed(root) && y in SeenFrom(s, root, r) && r < q <= y
    ensures q in SeenFrom(s, root, r)
  {
    SeenFromIsBelow(s, root, r, y);
    var n := NodeAt(root, r).value;
    WellFormedAt(root, r);
    SeenIsReached(s, n, r, y);
    SeenIsReached(s, n, r, q);
    assert y[|r|..] == q[|r|..] + y[|q|..];
    ReachesOnTheWay(s, n, r, q[|r|..], y[|q|..]);
  }

  // ----- path strings taken apart -----

  /** Where the first separator is, or -1. */
  function Find(s: string): int {
    if s == "" then -1
    else if s[0] == '/' then 0
    else if Find(s[1..]) == -1 then -1 else Find(s[1..]) + 1
  }

  lemma BelowNothing()
    ensures Below([]) == ""
  {
  }

  lemma NothingToVisit(p: Path)
    ensures Ancestors(p, 0) == [] && (p == [] ==> Find(Remaining(p, 0)) == -1)
  {
  }

  lemma OneMoreToVisit(p: Path, k: nat)
    requires 0 < k <= |p|
    ensures Ancestors(p, k) == Ancestors(p, k - 1) + [p[..k]]
  {
  }

  lemma {:induction false} FindAfterName(n: string, rest: string)
    requires '/' !in n && (rest != "" ==> rest[0] == '/')
    ensures Find(n + rest) == if rest == "" then -1 else |n|
  {
    if n == "" {
      assert n + rest == rest;
    } else {
      assert n[0] in n && (n + rest)[0] == n[0] && (n + rest)[1..] == n[1..] + rest;
      FindAfterName(n[1..], rest);
    }
  }

  lemma PathStringStarts(p: Path)
    ensures FullPath(p) != "" && FullPath(p)[0] == '/'
    ensures FullPath(p)[1..] == Remaining(p, 0)
  {
    assert p[0..] == p;
  }

  /** What is left of the path string of `p` after its first `k` components, without the leading separator. */
  function Remaining(p: Path, k: nat): string
    requires k <= |p|
  {
    if k == |p| then "" else Below(p[k..])[1..]
  }

  /** The first component ends at the first separator, if there are more, and is all of it if not. */
  lemma FirstComponent(p: Path, k: nat)
    requires k < |p| && GoodPath(p)
    ensures var s := Remaining(p, k);
            && Find(s) == (if k + 1 == |p| then -1 else |p[k]|)
            && (if k + 1 == |p| then s == p[k] else Find(s) > 0 && s[..Find(s)] == p[k] && s[Find(s) + 1..] == Remaining(p, k + 1))
  {
    var q := p[k..];
    var s, rest := Below(q)[1..], Below(q[1..]);
    assert Below(q) == "/" + (q[0] + rest);
    assert s == q[0] + rest;
    assert GoodName(p[k]);
    FindAfterName(q[0], rest);
    hide Find, Below;
    assert q[1..] == p[k + 1..];
    if |q| == 1 {
      BelowNothing();
    } else {
      assert s[|q[0]|..] == rest;
    }
  }

  /** The first `k` directories on the way down to `p`, from the top. */
  function Ancestors(p: Path, k: nat): (r: seq<Path>)
    requires k <= |p|
    ensures |r| == k && forall j :: 0 <= j < k ==> r[j] == p[..j + 1]
  {
    if k == 0 then [] else Ancestors(p, k - 1) + [p[..k]]
  }

  lemma ComponentAdded(target: Path, k: nat)
    requires k < |target|
    ensures target[..k] + [target[k]] == target[..k + 1] && Below(target[..k + 1]) == Below(target[..k]) + "/" + target[k]
  {
    BelowAppend(target[..k], [target[k]]);
    assert [target[k]][1..] == [] && Below([target[k]]) == "/" + target[k];
    assert target[..k] + [target[k]] == target[..k + 1];
  }

  /** The loop over the path string of the target has taken `k` components. */
  ghost predicate PathAt(target: Path, k: nat, name: Path, current: string, remaining: string) {
    k <= |target| && name == target[..k] && current == Below(name) && remaining == Remaining(target, k)
  }

  lemma PathAtStart(target: Path)
    ensures FullPath(target) != "" && FullPath(target)[0] == '/'
    ensures PathAt(target, 0, [], "", FullPath(target)[1..])
    ensures target == [] ==> Find(FullPath(target)[1..]) == -1
  {
    PathStringStarts(target);
    BelowNothing();
  }

  lemma PathAtFind(target: Path, k: nat, name: Path, current: string, remaining: string)
    requires PathAt(target, k, name, current, remaining) && k < |target| && GoodPath(target)
    ensures name == target[..k] && current == Below(name)
    ensures if k + 1 == |target| then Find(remaining) == -1 && name + [remaining] == target
            else Find(remaining) > 0 && Find(remaining) <= |remaining| && remaining[..Find(remaining)] == target[k]
  {
    FirstComponent(target, k);
    if k + 1 == |target| { LastComponent(target, k); }
  }

  lemma PathAtNext(target: Path, k: nat, name: Path, current: string, remaining: string, next: Path, path: string)
    requires PathAt(target, k, name, current, remaining) && k + 1 < |target| && GoodPath(target)
    requires next == target[..k + 1] && path == Below(next)
    ensures 0 < Find(remaining) < |remaining| && PathAt(target, k + 1, next, path, remaining[Find(remaining) + 1..])
  {
    FirstComponent(target, k);
  }

  /** Going up from the target, the node with the path string of a directory above it is that directory. */
  lemma NodePathIs(target: Path, node: Path, dir: Path)
    requires GoodPath(target) && dir <= node <= target && dir != []
    ensures FullPath(node) == Below(dir) <==> node == dir
    ensures node != dir ==> dir <= node[..|node| - 1]
  {
    assert node == target[..|node|] && dir == target[..|dir|];
    FullPathInjective(node, dir);
  }

  lemma LastComponent(target: Path, k: nat)
    requires k + 1 == |target|
    ensures target[..k] + [target[k]] == target
  {
  }

  /** The directories are there, and their nodes have versions to take attributes from. */
  ghost predicate Dressed(root: CacheNode, visited: seq<Path>, dirs: set<Path>) {
    forall v :: v in visited ==> v in dirs && NodeAt(root, v).Some? && NodeAt(root, v).value.versions != []
  }

  /** Of the directories only ones above `target` are new. */
  ghost predicate OnlyAbove(before: set<Path>, after: set<Path>, target: Path) {
    before <= after && forall y :: y in after && y !in before ==> y != [] && y < target
  }

  lemma NothingMade(root: CacheNode, dirs: set<Path>, target: Path)
    ensures Dressed(root, [], dirs) && OnlyAbove(dirs, dirs, target)
  {
  }

  lemma AddAbove(root: CacheNode, before: set<Path>, now: set<Path>, later: set<Path>, target: Path, dir: Path, visited: seq<Path>)
    requires OnlyAbove(before, now, target) && Dressed(root, visited, now) && dir != [] && dir < target
    requires later == now || later == now + {dir}
    ensures OnlyAbove(before, later, target) && Dressed(root, visited, later)
    ensures dir in later && NodeAt(root, dir).Some? && NodeAt(root, dir).value.versions != [] ==> Dressed(root, visited + [dir], later)
  {
  }

  /** All directories above the node are there; that of the restore itself always is. */
  ghost predicate Housed(dirs: set<Path>, p: Path) {
    forall j :: 0 < j < |p| ==> p[..j] in dirs
  }

  lemma HousedMore(dirs: set<Path>, more: set<Path>)
    requires dirs <= more
    ensures forall p :: Housed(dirs, p) ==> Housed(more, p)
  {
  }

  lemma ChildHoused(dirs: set<Path>, p: Path, name: string)
    requires Housed(dirs, p) && (p != [] ==> p in dirs)
    ensures Housed(dirs, p + [name])
  {
    forall j | 0 < j < |p + [name]|
      ensures (p + [name])[..j] in dirs
    {
      assert (p + [name])[..j] == if j < |p| then p[..j] else p;
    }
  }

  lemma EntryHoused(root: CacheNode, dirs: set<Path>, p: Path, visited: seq<Path>)
    requires Dressed(root, visited, dirs)
    requires |visited| == (if p == [] then 0 else |p| - 1) && visited == Ancestors(p, |visited|)
    ensures Housed(dirs, p)
  {
    forall j | 0 < j < |p|
      ensures p[..j] in dirs
    {
      assert visited[j - 1] in visited;
    }
  }

  // ----- the restore -----

  class RestoreProgressPanel {
    const root: CacheNode
    const date: Option<int>
    const blockSize: nat
    const spec: RestoreSpec
    const counters: ProgressCounters
    var stopRequested: bool
    /** A directory could not be listed while files were counted. */
    ghost var countFailed: bool
    var dirs: set<Path>
    var files: set<Path>
    var fetched: seq<Item>
    var failure: Option<Failure>

    constructor (root: CacheNode, entries: seq<SpecEntry>, date: Option<int>, blockSize: nat)
      ensures this.root == root && this.date == date && this.blockSize == blockSize
      ensures fresh(spec) && fresh(counters) && spec.entries == entries
      ensures !stopRequested && !countFailed && failure.None? && fetched == [] && dirs == files == {}
    {
      this.root, this.date, this.blockSize := root, date, blockSize;
      spec := new RestoreSpec(entries);
      counters := new ProgressCounters();
      stopRequested, countFailed, dirs, files, fetched, failure := false, false, {}, {}, [], None;
    }

    ghost predicate Valid()
      reads this, spec
    {
      WellFormed(root) && root.versions != [] && Ordered(spec.entries) && InTree(root, spec.entries)
    }

    /** The settings that stay the same through both passes. */
    ghost predicate For(s: Settings)
      reads spec
    {
      s == Settings(Excludes(spec.entries), date)
    }

    /** The user interface runs, and the user may ask to stop. */
    method Yield()
      modifies this`stopRequested
      ensures old(stopRequested) ==> stopRequested
    {
      if * { stopRequested := true; }
    }

    /** Count the files of a walk begun at `r`, and drop the include entries that it comes to below `r`. */
    method CountFilesRecursive(r: Path, n: CacheNode, p: Path, ghost s: Settings, ghost parent: int)
      requires Valid() && For(s) && NodeAt(root, p) == Some(n) && r <= p
      modifies this`stopRequested, this`countFailed, spec, counters`filesCounted, counters`bytesCounted
      ensures Valid() && For(s) && (old(stopRequested) ==> stopRequested) && (old(countFailed) ==> countFailed)
      ensures FirstKept(old(spec.entries), spec.entries)
      ensures old(counters.filesCounted) <= counters.filesCounted <= old(counters.filesCounted) + |Walk(s, n, p, parent)|
      ensures old(counters.bytesCounted) <= counters.bytesCounted <= old(counters.bytesCounted) + Bytes(Walk(s, n, p, parent), blockSize)
      ensures !stopRequested && !countFailed ==>
                && spec.entries == Dropped(old(spec.entries), if p == r then SeenBelow(s, n, p) else Seen(s, n, p))
                && counters.filesCounted == old(counters.filesCounted) + |Walk(s, n, p, parent)|
                && counters.bytesCounted == old(counters.bytesCounted) + Bytes(Walk(s, n, p, parent), blockSize)
      decreases n, 1
    {
      hide WellFormed, Ordered, Excludes, DropRedundant, NodeAt;
      if stopRequested { return; }
      var version := GetVersionToRestore(n, date);
      if version.None? { return; }
      ghost var es := spec.entries;
      DropKeepsValid(root, es, p);
      var stop := CheckEntries(spec, p, p == r);
      ghost var es1 := spec.entries;
      assert Dropped(es, [p]) == DropRedundant(es, p) by {
        assert [p][1..] == [];
      }
      ExcludedMeans(es, p);
      if !stop && !version.value.isDeleted {
        if version.value.isDir {
          CountChildren(r, n, p, s, version.value.id);
        } else {
          counters.NotifyMoreFilesCounted(1, version.value.sizeInBlocks * blockSize);
          Yield();
          ghost var x := Item(p, parent, version.value);
          assert [x][1..] == [];
        }
      }
      DroppedAppend(es, [p], SeenBelow(s, n, p));
    }

    method CountChildren(r: Path, n: CacheNode, p: Path, ghost s: Settings, ghost parent: int)
      requires Valid() && For(s) && NodeAt(root, p) == Some(n) && r <= p
      modifies this`stopRequested, this`countFailed, spec, counters`filesCounted, counters`bytesCounted
      ensures Valid() && For(s) && (old(stopRequested) ==> stopRequested) && (old(countFailed) ==> countFailed)
      ensures FirstKept(old(spec.entries), spec.entries)
      ensures var all := WalkAll(s, n.children, p, parent);
              && old(counters.filesCounted) <= counters.filesCounted <= old(counters.filesCounted) + |all|
              && old(counters.bytesCounted) <= counters.bytesCounted <= old(counters.bytesCounted) + Bytes(all, blockSize)
      ensures !stopRequested && !countFailed ==>
                && spec.entries == Dropped(old(spec.entries), SeenAll(s, n.children, p))
                && counters.filesCounted == old(counters.filesCounted) + |WalkAll(s, n.children, p, parent)|
                && counters.bytesCounted == old(counters.bytesCounted) + Bytes(WalkAll(s, n.children, p, parent), blockSize)
      decreases n, 0
    {
      Yield();
      if * {
        countFailed := true;
        return;
      }
      ghost var cs, all, seen := n.children, WalkAll(s, n.children, p, parent), SeenAll(s, n.children, p);
      assert cs[0..] == cs;
      for i := 0 to |n.children|
        invariant Valid() && For(s) && (old(stopRequested) ==> stopRequested) && (old(countFailed) ==> countFailed)
        invariant FirstKept(old(spec.entries), spec.entries)
        invariant old(counters.filesCounted) <= counters.filesCounted
        invariant counters.filesCounted + |WalkAll(s, cs[i..], p, parent)| <= old(counters.filesCounted) + |all|
        invariant old(counters.bytesCounted) <= counters.bytesCounted
        invariant counters.bytesCounted + Bytes(WalkAll(s, cs[i..], p, parent), blockSize) <= old(counters.bytesCounted) + Bytes(all, blockSize)
        invariant !stopRequested && !countFailed ==>
                    && Dropped(spec.entries, SeenAll(s, cs[i..], p)) == Dropped(old(spec.entries), seen)
                    && counters.filesCounted + |WalkAll(s, cs[i..], p, parent)| == old(counters.filesCounted) + |all|
                    && counters.bytesCounted + Bytes(WalkAll(s, cs[i..], p, parent), blockSize) ==
                       old(counters.bytesCounted) + Bytes(all, blockSize)
      {
        hide WellFormed, Ordered, Excludes, Dropped, Walk, WalkAll, Seen, SeenAll, Bytes, NodeAt;
        var c := n.children[i];
        var q := p + [c.name];
        NodeAtChild(root, p, i);
        assert r <= p < q;
        WalkStep(s, cs, i, p, parent);
        DroppedAppend(spec.entries, Seen(s, c, q), SeenAll(s, cs[i + 1..], p));
        BytesAppend(Walk(s, c, q, parent), WalkAll(s, cs[i + 1..], p, parent), blockSize);
        CountFilesRecursive(r, c, q, s, parent);
      }
    }

    // ----- fetching -----

    ghost function Local(): set<Path>
      reads this
    {
      dirs + files
    }

    /** The counters agree with what has been fetched. */
    ghost predicate Tallied()
      reads this, counters
    {
      && counters.filesDone == |fetched| && counters.bytesDone == Bytes(fetched, blockSize)
      && files == (set x | x in fetched :: x.path)
      && forall x :: x in fetched ==> Housed(dirs, x.path)
    }

    method Fail(why: Failure)
      modifies this`failure
      ensures failure == Some(why)
    {
      failure := Some(why);
    }

    method MakeDirectory(name: Path) returns (ok: bool)
      modifies this`dirs
      ensures dirs == if ok then old(dirs) + {name} else old(dirs)
      ensures ok ==> name !in files
    {
      if name in files || name in dirs { return false; }
      if * { return false; }
      dirs := dirs + {name};
      return true;
    }

    /** Going up from the target, find the node with the given path string; the search does not go past the root. */
    method FindAbove(target: Path, path: string, ghost dir: Path) returns (node: Path)
      requires GoodPath(target) && dir <= target && dir != [] && path == Below(dir)
      ensures node == dir
    {
      hide FullPath, Below;
      node := target;
      while FullPath(node) != path
        invariant dir <= node <= target
        decreases |node|
      {
        NodePathIs(target, node, dir);
        assert node != [];
        node := node[..|node| - 1];
      }
      NodePathIs(target, node, dir);
    }

    /** Make the next directory on the way down to the target, and put the attributes of its node on it. */
    method MakeNext(target: Path, name: Path, current: string, component: string, ghost k: nat) returns (ok: bool, next: Path, path: string)
      requires WellFormed(root) && NodeAt(root, target).Some?
      requires k + 1 < |target| && name == target[..k] && current == Below(name) && component == target[k]
      modifies this`dirs
      ensures next == target[..k + 1] && path == Below(next)
      ensures dirs == old(dirs) || dirs == old(dirs) + {next}
      ensures ok ==> next in dirs && NodeAt(root, next).Some? && NodeAt(root, next).value.versions != []
    {
      WellFormedAt(root, target);
      hide WellFormed, Below, FullPath, NodeAt, GoodPath;
      ComponentAdded(target, k);
      next, path := name + [component], current + "/" + component;
      if next !in dirs {
        var made := MakeDirectory(next);
        if !made { return false, next, path; }
      }
      var node := FindAbove(target, path, next);
      NodeAtPrefix(root, target, |next|);
      var version := GetMostRecent(NodeAt(root, node).value.versions);
      MostRecentIsGreatest(NodeAt(root, node).value.versions);
      ok := version.Some?;
    }

    /** Make the directories above a node, from the one below the root down; `visited` is those whose attributes are put on them. */
    method MakeLocalPath(target: Path) returns (out: Option<Path>, visited: seq<Path>)
      requires WellFormed(root) && NodeAt(root, target).Some?
      modifies this`dirs
      ensures out.Some? ==> out == Some(target)
      ensures |visited| <= |target| && visited == Ancestors(target, |visited|)
      ensures out.Some? ==> |visited| == if target == [] then 0 else |target| - 1
      ensures Dressed(root, visited, dirs) && OnlyAbove(old(dirs), dirs, target)
    {
      WellFormedAt(root, target);
      hide WellFormed, Below, FullPath, NodeAt, Find, Ancestors, GoodPath, Dressed, OnlyAbove, PathAt;
      PathAtStart(target);
      var remaining := FullPath(target)[1..];
      var current := "";
      var name: Path := [];
      visited := [];
      NothingToVisit(target);
      NothingMade(root, dirs, target);
      ghost var k := 0;
      var index := Find(remaining);
      while index != -1
        invariant PathAt(target, k, name, current, remaining) && index == Find(remaining)
        invariant if target == [] then k == 0 && index == -1 else k < |target|
        invariant |visited| == k && visited == Ancestors(target, k)
        invariant Dressed(root, visited, dirs) && OnlyAbove(old(dirs), dirs, target)
        decreases |target| - k
      {
        PathAtFind(target, k, name, current, remaining);
        if index <= 0 { return None, visited; }
        ghost var before := dirs;
        var ok, next, path := MakeNext(target, name, current, remaining[..index], k);
        OneMoreToVisit(target, k + 1);
        AddAbove(root, old(dirs), before, dirs, target, next, visited);
        if !ok { return None, visited; }
        PathAtNext(target, k, name, current, remaining, next, path);
        name, current, remaining := next, path, remaining[index + 1..];
        visited := visited + [next];
        k := k + 1;
        index := Find(remaining);
      }
      if target == [] { return Some([]), visited; }
      PathAtFind(target, k, name, current, remaining);
      return Some(name + [remaining]), visited;
    }

    /** A node is reported as not on the server only if the user has marked it and there is no version of it to restore. */
    ghost predicate ReportRight()
      reads this, spec
    {
      failure.Some? && failure.value.NotOnServer? ==>
        var q := failure.value.node;
        Included(spec.entries, q) && NodeAt(root, q).Some? && Chosen(NodeAt(root, q).value, date).None?
    }

    /** Restore a node and what is below it, as far as it is not excluded, until something fails. */
    method RestoreFilesRecursive(n: CacheNode, p: Path, parent: int, ghost s: Settings) returns (ok: bool)
      requires Valid() && For(s) && NodeAt(root, p) == Some(n) && Tallied() && failure.None? && Housed(dirs, p)
      modifies this`stopRequested, this`dirs, this`files, this`fetched, this`failure, counters`filesDone, counters`bytesDone
      ensures Tallied() && ReportRight() && (ok <==> failure.None?) && old(dirs) <= dirs
      ensures old(stopRequested) ==> stopRequested && failure == Some(Stopped) && fetched == old(fetched)
      ensures fetched <= old(fetched) + Walk(s, n, p, parent)
      ensures ok ==> fetched == old(fetched) + Walk(s, n, p, parent)
      ensures Grown(old(Local()), Local(), Seen(s, n, p))
      ensures (p in s.excluded || Free(old(Local()), p)) && failure.Some? ==> !failure.value.AlreadyExists?
      decreases n, 1
    {
      hide WellFormed, Ordered, NodeAt, SeenAll, Free, FreeBelow, Grown, Housed;
      NotGrown(Local(), Seen(s, n, p));
      if Free(Local(), p) { FreeMeansNot(Local(), p); }
      if stopRequested {
        Fail(Stopped);
        return false;
      }
      var version := GetVersionToRestore(n, date);
      var specs := spec.entries;
      for i := 0 to |specs|
        invariant SpecEntry(p, false) !in specs[..i]
      {
        if specs[i].node != p { continue; }
        if !specs[i].isInclude { return true; }
        if version.None? {
          assert specs[i] == SpecEntry(p, true);
          Fail(NotOnServer(p));
          return false;
        }
      }
      assert p !in s.excluded;
      if version.None? { return true; }
      if p != [] && (p in files || p in dirs) {
        Fail(AlreadyExists(p));
        return false;
      }
      if version.value.isDeleted { return true; }
      if version.value.isDir {
        if p != [] {
          HousedMore(dirs, dirs + {p});
          var made := MakeDirectory(p);
          if !made {
            Fail(CannotCreate(p));
            return false;
          }
        }
        ghost var local := Local();
        ok := RestoreChildren(n, p, version.value.id, s);
        GrownAtNode(old(Local()), local, Local(), p, SeenAll(s, n.children, p));
      } else {
        ok := FetchFile(p, parent, version.value);
        GrownAtNode(old(Local()), Local(), Local(), p, []);
        ghost var x := Item(p, parent, version.value);
        assert [x][1..] == [];
      }
    }

    /** Fetch one file to its place. */
    method FetchFile(p: Path, parent: int, version: Version) returns (ok: bool)
      requires Tallied() && failure.None? && Housed(dirs, p)
      modifies this`stopRequested, this`files, this`fetched, this`failure, counters`filesDone, counters`bytesDone
      ensures Tallied() && (old(stopRequested) ==> stopRequested)
      ensures failure == if ok then None else Some(NotFetched(p))
      ensures files == old(files) + if ok then {p} else {}
      ensures fetched == old(fetched) + if ok then [Item(p, parent, version)] else []
    {
      hide Bytes, Housed;
      if * {
        Fail(NotFetched(p));
        return false;
      }
      BytesExactly(fetched, Item(p, parent, version), blockSize);
      files := files + {p};
      fetched := fetched + [Item(p, parent, version)];
      counters.NotifyMoreFilesDone(1, version.sizeInBlocks * blockSize);
      Yield();
      return true;
    }

    method RestoreChildren(n: CacheNode, p: Path, parent: int, ghost s: Settings) returns (ok: bool)
      requires Valid() && For(s) && NodeAt(root, p) == Some(n) && Tallied() && failure.None? && Housed(dirs, p) && (p != [] ==> p in dirs)
      modifies this`stopRequested, this`dirs, this`files, this`fetched, this`failure, counters`filesDone, counters`bytesDone
      ensures Tallied() && ReportRight() && (ok <==> failure.None?) && (old(stopRequested) ==> stopRequested) && old(dirs) <= dirs
      ensures fetched <= old(fetched) + WalkAll(s, n.children, p, parent)
      ensures ok ==> fetched == old(fetched) + WalkAll(s, n.children, p, parent)
      ensures Grown(old(Local()), Local(), SeenAll(s, n.children, p))
      ensures FreeBelow(old(Local()), p) && failure.Some? ==> !failure.value.AlreadyExists?
      decreases n, 0
    {
      hide WellFormed, Ordered, Excludes, Walk, WalkAll, Seen, SeenAll, Bytes, NodeAt, Free, FreeBelow, ChildrenFree, Grown, Housed;
      ghost var cs, all, before, local := n.children, WalkAll(s, n.children, p, parent), fetched, Local();
      NotGrown(local, SeenAll(s, cs, p));
      WellFormedAt(root, p);
      if FreeBelow(local, p) { ChildrenFreeAtFirst(local, n, p); }
      assert cs[0..] == cs;
      if * {
        Fail(NotListed(p));
        return false;
      }
      for i := 0 to |n.children|
        invariant Valid() && For(s) && Tallied() && failure.None? && (old(stopRequested) ==> stopRequested)
        invariant old(dirs) <= dirs && Housed(dirs, p)
        invariant fetched + WalkAll(s, cs[i..], p, parent) == before + all
        invariant Grown(local, Local(), SeenAll(s, cs, p))
        invariant FreeBelow(local, p) ==> ChildrenFree(Local(), n, p, i)
      {
        var c := n.children[i];
        ghost var q, soFar, now := p + [c.name], fetched, Local();
        NodeAtChild(root, p, i);
        WalkStep(s, cs, i, p, parent);
        if FreeBelow(local, p) { ChildIsFree(now, n, p, i); }
        ChildHoused(dirs, p, c.name);
        ghost var dirs0 := dirs;
        ok := RestoreFilesRecursive(c, p + [c.name], parent, s);
        HousedMore(dirs0, dirs);
        FetchStep(before, all, soFar, Walk(s, c, q, parent), WalkAll(s, cs[i + 1..], p, parent), fetched);
        NextChildFree(s, n, p, i, local, now, Local());
        if !ok { return false; }
      }
      assert cs[|cs|..] == [];
      WalkNone(s, p, parent);
      return true;
    }

    // ----- the two passes -----

    /** Count what each include entry stands for, passing over those that have been dropped on the way. */
    method CountEntries(ghost s: Settings)
      requires Valid() && For(s) && counters.filesCounted == counters.bytesCounted == 0
      modifies this`stopRequested, this`countFailed, spec, counters`filesCounted, counters`bytesCounted
      ensures Valid() && For(s) && (old(stopRequested) ==> stopRequested) && (old(countFailed) ==> countFailed)
      ensures FirstKept(old(spec.entries), spec.entries)
      ensures !stopRequested && !countFailed ==>
                && spec.entries == Survivors(s, root, old(spec.entries))
                && counters.filesCounted == |Plan(s, root, old(spec.entries))|
                && counters.bytesCounted == Bytes(Plan(s, root, old(spec.entries)), blockSize)
    {
      hide WellFormed, Ordered, Excludes, Dropped, Walk, SeenBelow, Bytes, NodeAt, PlanOf;
      var entries := spec.entries;
      CountedIsFetched(s, root, entries);
      assert entries[0..] == entries;
      for i := 0 to |entries|
        invariant Valid() && For(s) && (old(stopRequested) ==> stopRequested) && (old(countFailed) ==> countFailed)
        invariant FirstKept(old(spec.entries), spec.entries)
        invariant !stopRequested && !countFailed ==>
                    && CountPass(s, root, spec.entries, entries[i..]) == Survivors(s, root, entries)
                    && counters.filesCounted + |Counted(s, root, spec.entries, entries[i..])| == |Counted(s, root, entries, entries)|
                    && counters.bytesCounted + Bytes(Counted(s, root, spec.entries, entries[i..]), blockSize) ==
                       Bytes(Counted(s, root, entries, entries), blockSize)
      {
        assert entries[i..][1..] == entries[i + 1..];
        var found := Contains(spec.entries, entries[i]);
        if !found { continue; }
        if entries[i].isInclude {
          var p := entries[i].node;
          ghost var now := spec.entries;
          assert entries[i] in entries;
          BytesAppend(WalkFrom(s, root, p), Counted(s, root, Dropped(now, SeenFrom(s, root, p)), entries[i + 1..]), blockSize);
          CountFilesRecursive(p, NodeAt(root, p).value, p, s, ParentId(root, p));
        }
      }
      assert entries[|entries|..] == [];
      NothingLeft(s, root, spec.entries, blockSize);
    }

    /** The id of the directory that an include entry's node is in. */
    method ParentOf(p: Path, ghost visited: seq<Path>) returns (id: int)
      requires Valid() && NodeAt(root, p).Some? && Dressed(root, visited, dirs)
      requires |visited| == (if p == [] then 0 else |p| - 1) && visited == Ancestors(p, |visited|)
      ensures id == ParentId(root, p)
      ensures p == [] ==> id == -1
      ensures p != [] ==>
                NodeAt(root, p[..|p| - 1]).Some? &&
                var vs := NodeAt(root, p[..|p| - 1]).value.versions;
                exists i :: 0 <= i < |vs| && id == vs[i].id && forall j :: 0 <= j < |vs| ==> vs[j].id <= vs[i].id
    {
      hide WellFormed, Ordered, Ancestors;
      if p == [] { return -1; }
      var dir := p[..|p| - 1];
      NodeAtPrefix(root, p, |p| - 1);
      if dir != [] {
        assert dir == visited[|visited| - 1];
        assert dir in visited;
      }
      var version := GetMostRecent(NodeAt(root, dir).value.versions);
      MostRecentIsGreatest(NodeAt(root, dir).value.versions);
      return version.value.id;
    }

    /** Restore what the include entry for `p` stands for. */
    method RestoreEntry(p: Path, ghost s: Settings) returns (ok: bool)
      requires Valid() && For(s) && NodeAt(root, p).Some? && Tallied() && failure.None?
      modifies this`stopRequested, this`dirs, this`files, this`fetched, this`failure, counters`filesDone, counters`bytesDone
      ensures Tallied() && ReportRight() && (ok <==> failure.None?)
      ensures old(stopRequested) ==> stopRequested && !ok && fetched == old(fetched)
      ensures fetched <= old(fetched) + WalkFrom(s, root, p)
      ensures ok ==> fetched == old(fetched) + WalkFrom(s, root, p)
      ensures GrownFrom(s, root, old(Local()), Local(), p)
      ensures (old(stopRequested) || p in s.excluded || Free(old(Local()), p)) && failure.Some? ==> !failure.value.AlreadyExists?
    {
      hide WellFormed, Ordered, Excludes, Walk, Bytes, NodeAt, Dressed, Grown, Free, GrownFrom, Ancestors, Housed;
      ghost var local, dirs0 := Local(), dirs;
      var dest, visited := MakeLocalPath(p);
      if Free(local, p) { StillFree(dirs0, dirs, files, p); }
      NewIsAbove(dirs0, dirs, files, p);
      HousedMore(dirs0, dirs);
      ghost var made := Local();
      NotGrown(made, Seen(s, NodeAt(root, p).value, p));
      if dest.None? {
        Fail(NoLocalPath(p));
        GrownFromHere(s, root, p, local, made, Local());
        return false;
      }
      EntryHoused(root, dirs, p, visited);
      var parent := ParentOf(p, visited);
      ok := RestoreFilesRecursive(NodeAt(root, p).value, p, parent, s);
      GrownFromHere(s, root, p, local, made, Local());
    }

    /** Restore what each include entry that is left stands for, until one fails; `succeeded` begins as false, and is tested after every entry. */
    method RestoreEntries(ghost s: Settings, ghost es: seq<SpecEntry>) returns (succeeded: bool)
      requires Valid() && For(s) && Tallied() && failure.None? && fetched == [] && Local() == {}
      requires Ordered(es) && InTree(root, es) && s.excluded == Excludes(es)
      modifies this`stopRequested, this`dirs, this`files, this`fetched, this`failure, counters`filesDone, counters`bytesDone
      ensures Tallied() && ReportRight() && (succeeded ==> failure.None?)
      ensures old(stopRequested) ==> stopRequested && !succeeded && fetched == []
      ensures spec.entries == [] || !spec.entries[0].isInclude ==> !succeeded && fetched == []
      ensures fetched <= PlanOf(s, root, spec.entries, spec.entries)
      ensures succeeded ==> fetched == PlanOf(s, root, spec.entries, spec.entries)
      ensures failure.None? ==> (succeeded <==> spec.entries != [] && spec.entries[0].isInclude)
      ensures (old(stopRequested) || spec.entries == Survivors(s, root, es)) && failure.Some? ==> !failure.value.AlreadyExists?
    {
      hide WellFormed, Ordered, Excludes, WalkFrom, Bytes, NodeAt, Survivors, Free, Placed, GrownFrom, PlanOf;
      var entries := spec.entries;
      ghost var all := PlanOf(s, root, entries, entries);
      succeeded := false;
      NothingPlaced(s, root, entries);
      assert entries[0..] == entries;
      for i := 0 to |entries|
        invariant Tallied() && failure.None? && (succeeded <==> i > 0) && (i > 0 ==> entries[0].isInclude && !old(stopRequested))
        invariant old(stopRequested) ==> stopRequested && fetched == []
        invariant fetched + PlanOf(s, root, entries[i..], entries) == all
        invariant Placed(s, root, entries[..i], Local())
      {
        var e := entries[i];
        assert e in entries;
        PlanStep(s, root, entries, i);
        if e.isInclude {
          ghost var local, soFar := Local(), fetched;
          if entries == Survivors(s, root, es) { RoomForAll(s, root, es, i, local); }
          succeeded := RestoreEntry(e.node, s);
          FetchStep([], all, soFar, WalkFrom(s, root, e.node), PlanOf(s, root, entries[i + 1..], entries), fetched);
          PlacedStep(s, root, entries, i, local, Local());
        } else {
          PlacedMore(s, root, entries, i, Local());
        }
        if !succeeded { return; }
      }
      NothingPlanned(s, root, entries);
    }

    /** The whole restore of the entries that the user selected. */
    method StartRestore(ghost s: Settings) returns (succeeded: bool)
      requires Valid() && For(s) && failure.None? && fetched == [] && Local() == {} && !countFailed
      modifies this, spec, counters
      ensures Tallied() && ReportRight() && (succeeded ==> failure.None?)
      ensures !countFailed ==>
                && var plan := Plan(s, root, old(spec.entries));
                && fetched <= plan && (succeeded ==> fetched == plan)
                && counters.filesDone <= counters.filesCounted && counters.bytesDone <= counters.bytesCounted
                && (succeeded ==> counters.filesDone == counters.filesCounted && counters.bytesDone == counters.bytesCounted)
                && (failure.Some? ==> !failure.value.AlreadyExists?)
      ensures old(spec.entries) == [] || !old(spec.entries)[0].isInclude ==> !succeeded && fetched == []
      ensures counters.filesDone == |fetched| && counters.bytesDone == Bytes(fetched, blockSize)
      ensures files == (set x | x in fetched :: x.path)
      ensures forall x :: x in fetched ==> forall j :: 0 < j < |x.path| ==> x.path[..j] in dirs
      ensures failure.Some? && failure.value.NotOnServer? ==>
                SpecEntry(failure.value.node, true) in spec.entries && NodeAt(root, failure.value.node).Some? &&
                Chosen(NodeAt(root, failure.value.node).value, date).None?
      ensures !countFailed && !stopRequested && failure.None? ==>
                (succeeded <==> old(spec.entries) != [] && old(spec.entries)[0].isInclude)
    {
      hide WellFormed, Ordered, Excludes, Bytes, PlanOf, CountPass;
      ghost var es := spec.entries;
      counters.ResetCounters();
      stopRequested := false;
      Yield();
      NothingLeft(s, root, es, blockSize);
      CountEntries(s);
      ghost var kept, counted, bytes, clean := spec.entries, counters.filesCounted, counters.bytesCounted, !stopRequested && !countFailed;
      Yield();
      succeeded := RestoreEntries(s, es);
      if clean {
        PrefixHasNoMore(fetched, Plan(s, root, es), blockSize);
        if es != [] { PassKeepsHead(s, root, es, es, es); }
        NothingSurvives(s, root, es);
      }
    }
  }

  lemma NothingSurvives(s: Settings, root: CacheNode, es: seq<SpecEntry>)
    ensures es == [] ==> Survivors(s, root, es) == []
  {
  }

  method Contains(es: seq<SpecEntry>, e: SpecEntry) returns (found: bool)
    ensures found <==> e in es
  {
    for i := 0 to |es|
      invariant e !in es[..i]
    {
      if es[i] == e { return true; }
    }
    return false;
  }

  lemma NothingLeft(s: Settings, root: CacheNode, now: seq<SpecEntry>, blockSize: nat)
    ensures CountPass(s, root, now, []) == now && Counted(s, root, now, []) == [] && Bytes([], blockSize) == 0
  {
  }

  lemma DropKeepsValid(root: CacheNode, es: seq<SpecEntry>, p: Path)
    requires Ordered(es) && InTree(root, es)
    ensures var next := DropRedundant(es, p);
            Ordered(next) && InTree(root, next) && Excludes(next) == Excludes(es) && FirstKept(es, next)
  {
    RemoveKeepsOrder(es, SpecEntry(p, true));
  }

  lemma ExcludedMeans(es: seq<SpecEntry>, p: Path)
    ensures p in Excludes(es) <==> Excluded(es, p)
  {
  }
}
