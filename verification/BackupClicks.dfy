/**
 * What the backup tree shows after a click, for every node of it: on an excluded or an always
 * included node, on a node outside all locations, and on the place of a location.
 */
module BackupClicks {
  import opened Common
  import opened LocalPath
  import opened ExcludeRules
  import opened BackupTree
  import opened BackupActivation
  import opened BackupPanel
  import FreshName

  // ----- editing the rules of one location -----

  /** Outside the location, nothing changes when its rules are edited. */
  lemma EditShows(locs: seq<Location>, rx: RegexLibrary, root: FileNode, i: nat, at: Path, rules: seq<Rule>, q: Path)
    requires LocationRoot(locs, rx, root, i, at) && NodeAt(root, q).Some?
    ensures var after := StateAt(WithRules(locs, i, rules), rx, root, q);
            if at <= q then ShownExcluded(after) <==> ExcludedOnTheWay(rules, rx, root, at, q)
            else after == StateAt(locs, rx, root, q)
  {
    hide StateAt, ShownExcluded, ExcludedOnTheWay, NodeAt, WellFormed;
    if at <= q {
      LocationRootKept(locs, i, rules, rx, root, at);
      TreeAt(locs, rx, root, i, at, q);
      ShownExcludedExactly(WithRules(locs, i, rules), rx, root, i, at, q);
    } else {
      NotAtOrBelow(at, q);
      ElsewhereKept(locs, i, rules, rx, root, at, q);
    }
  }

  lemma NotAtOrBelow(p: Path, q: Path)
    requires !(p <= q)
    ensures !AtOrBelow(p, q)
  {
  }

  // ----- a click on an excluded node -----

  lemma ClickOnExcluded(locs: seq<Location>, rx: RegexLibrary, root: FileNode, i: nat, at: Path, x: Path, n: nat, stem: string, confirm: bool)
    requires ExcludedAt(locs, rx, root, i, at, x, n)
    requires var r := StateAt(locs, rx, root, x).excludedBy; r.Some? ==> !(r.value.kind.match_ == Exact && r.value.value == FullPath(x))
    ensures Activated(locs, rx, root, x, stem, confirm) == WithIncluded(locs, i, root, x, n)
  {
    Geometry(locs, rx, root, i, at, x, n);
    LocationInherited(locs, rx, root, i, at, x);
  }

  /**
   * Clicking a node that is excluded, but not by a rule for exactly this node, shows what
   * `BackupActivation.IncludingShows` says of every node on the way to which the expressions that
   * are made find what they are meant to.
   */
  lemma ClickOnExcludedShows(locs: seq<Location>, rx: RegexLibrary, root: FileNode, i: nat, at: Path, x: Path, n: nat,
                             stem: string, confirm: bool, q: Path)
    requires ExcludedAt(locs, rx, root, i, at, x, n) && NodeAt(root, q).Some? && Meant(rx, root, x, n, q)
    requires var r := StateAt(locs, rx, root, x).excludedBy; r.Some? ==> !(r.value.kind.match_ == Exact && r.value.value == FullPath(x))
    ensures var after := StateAt(Activated(locs, rx, root, x, stem, confirm), rx, root, q);
            if q <= x || x <= q then !ShownExcluded(after)
            else if x[..|x| - n + 1] <= q then
              ShownExcluded(StateAt(locs, rx, root, q)) && (ShownExcluded(after) <==> BarredOnTheWay(locs[i].rules, rx, root, x, q))
            else after == StateAt(locs, rx, root, q)
  {
    ClickOnExcluded(locs, rx, root, i, at, x, n, stem, confirm);
    IncludingShows(locs, rx, root, i, at, x, n, q);
  }

  /**
   * The rules that such a click writes, with their text: the old ones stay in front, and what comes
   * after them are a rule for each node from the clicked one up to the highest excluded one, a pair that
   * excludes what is below that one, and, for a directory, a pair that includes what is below it.
   */
  lemma ClickOnExcludedWrites(locs: seq<Location>, rx: RegexLibrary, root: FileNode, i: nat, at: Path, x: Path, n: nat,
                              stem: string, confirm: bool, r: Rule)
    requires ExcludedAt(locs, rx, root, i, at, x, n)
    requires var r := StateAt(locs, rx, root, x).excludedBy; r.Some? ==> !(r.value.kind.match_ == Exact && r.value.value == FullPath(x))
    ensures var now, top := Activated(locs, rx, root, x, stem, confirm), x[..|x| - n + 1];
            && |now| == |locs| && locs[i].rules <= now[i].rules
            && (r in now[i].rules <==>
                || r in locs[i].rules
                || (exists j :: |x| - n < j <= |x| &&
                      r == Rule(RuleType(AlwaysInclude, if IsDir(root, x[..j]) then ForDir else ForFile, Exact), FullPath(x[..j])))
                || (n > 1 && r == Rule(RuleType(Exclude, ForDir, Regex), "^" + FullPath(top) + "/"))
                || (n > 1 && r == Rule(RuleType(Exclude, ForFile, Regex), "^" + FullPath(top) + "/"))
                || (IsDir(root, x) && r == Rule(RuleType(AlwaysInclude, ForDir, Regex), "^" + FullPath(x) + "/"))
                || (IsDir(root, x) && r == Rule(RuleType(AlwaysInclude, ForFile, Regex), "^" + FullPath(x) + "/")))
  {
    ClickOnExcluded(locs, rx, root, i, at, x, n, stem, confirm);
    Geometry(locs, rx, root, i, at, x, n);
    IncludingWrites(locs[i].rules, root, x, n, r);
    hide StateAt, Including, Activated, FullPath, IsDir, ExcludedAt;
  }

  lemma IncludingWrites(rules: seq<Rule>, root: FileNode, x: Path, n: nat, r: Rule)
    requires 0 < n <= |x|
    ensures var now, top := Including(rules, root, x, n), x[..|x| - n + 1];
            && rules <= now
            && (r in now <==>
                || r in rules
                || (exists j :: |x| - n < j <= |x| &&
                      r == Rule(RuleType(AlwaysInclude, if IsDir(root, x[..j]) then ForDir else ForFile, Exact), FullPath(x[..j])))
                || (n > 1 && r == Rule(RuleType(Exclude, ForDir, Regex), "^" + FullPath(top) + "/"))
                || (n > 1 && r == Rule(RuleType(Exclude, ForFile, Regex), "^" + FullPath(top) + "/"))
                || (IsDir(root, x) && r == Rule(RuleType(AlwaysInclude, ForDir, Regex), "^" + FullPath(x) + "/"))
                || (IsDir(root, x) && r == Rule(RuleType(AlwaysInclude, ForFile, Regex), "^" + FullPath(x) + "/")))
  {
    hide Including, FullPath, IsDir;
    IncludingExtends(rules, root, x, n);
    IncludingMembers(rules, root, x, n, r);
  }

  /** Where expressions are taken by their letters, what is said above holds for every node of the tree. */
  lemma LiteralClickShows(locs: seq<Location>, rx: RegexLibrary, root: FileNode, i: nat, at: Path, x: Path, n: nat,
                          stem: string, confirm: bool, q: Path)
    requires ExcludedAt(locs, rx, root, i, at, x, n) && NodeAt(root, q).Some?
    requires ByLetters(rx)
    requires var r := StateAt(locs, rx, root, x).excludedBy; r.Some? ==> !(r.value.kind.match_ == Exact && r.value.value == FullPath(x))
    ensures var after := StateAt(Activated(locs, rx, root, x, stem, confirm), rx, root, q);
            if q <= x || x <= q then !ShownExcluded(after)
            else if x[..|x| - n + 1] <= q then
              ShownExcluded(StateAt(locs, rx, root, q)) && (ShownExcluded(after) <==> BarredOnTheWay(locs[i].rules, rx, root, x, q))
            else after == StateAt(locs, rx, root, q)
  {
    Geometry(locs, rx, root, i, at, x, n);
    TreeAt(locs, rx, root, i, at, q);
    GoodPrefix(x, |x| - n + 1);
    hide StateAt, ShownExcluded, NodeAt, LocationRoot, Activated, FullPath, ExcludedAt, MeansBelow, BarredOnTheWay, ByLetters;
    LiteralMeansBelow(rx, x, q);
    LiteralMeansBelow(rx, x[..|x| - n + 1], q);
    ClickOnExcludedShows(locs, rx, root, i, at, x, n, stem, confirm, q);
  }

  /** So a directory beside the clicked one keeps its state, even if its name begins with the other's. */
  lemma LongerNameIsKept(locs: seq<Location>, rx: RegexLibrary, root: FileNode, i: nat, at: Path, x: Path, more: string,
                         stem: string, confirm: bool)
    requires ExcludedAt(locs, rx, root, i, at, x, 1) && more != ""
    requires ByLetters(rx)
    requires var r := StateAt(locs, rx, root, x).excludedBy; r.Some? ==> !(r.value.kind.match_ == Exact && r.value.value == FullPath(x))
    requires NodeAt(root, x[..|x| - 1] + [x[|x| - 1] + more]).Some?
    ensures var q := x[..|x| - 1] + [x[|x| - 1] + more];
            StateAt(Activated(locs, rx, root, x, stem, confirm), rx, root, q) == StateAt(locs, rx, root, q)
  {
    hide StateAt, ExcludedAt, Activated, ByLetters, ShownExcluded, NodeAt, BarredOnTheWay;
    Geometry(locs, rx, root, i, at, x, 1);
    var q := x[..|x| - 1] + [x[|x| - 1] + more];
    assert |x[|x| - 1] + more| > |x[|x| - 1]| && q[|x| - 1] != x[|x| - 1] && |q| == |x|;
    LiteralClickShows(locs, rx, root, i, at, x, 1, stem, confirm, q);
  }

  /** Some node below the beginning of the location, on the way to `q`, is matched by an excluding rule and by no including one, made or not. */
  ghost predicate LeftExcluded(rules: seq<Rule>, rx: RegexLibrary, root: FileNode, at: Path, x: Path, n: nat, q: Path)
    requires 0 < n <= |x|
  {
    exists k :: |at| < k <= |q| && ExcludedStill(rules, rx, root, x, n, q[..k])
  }

  ghost predicate ExcludedStill(rules: seq<Rule>, rx: RegexLibrary, root: FileNode, x: Path, n: nat, p: Path)
    requires 0 < n <= |x|
  {
    && (NameMatch(rules, Exclude, rx, root, p) || MadeExcludes(rx, x, n, p))
    && !(NameMatch(rules, AlwaysInclude, rx, root, p) || MadeIncludes(rx, root, x, n, p))
  }

  /**
   * Whatever the expressions that are made find, this is what each node of the tree shows after such a
   * click; outside the location nothing changes.
   */
  lemma ClickOnExcludedShowsExactly(locs: seq<Location>, rx: RegexLibrary, root: FileNode, i: nat, at: Path, x: Path, n: nat,
                                    stem: string, confirm: bool, q: Path)
    requires ExcludedAt(locs, rx, root, i, at, x, n) && NodeAt(root, q).Some?
    requires var r := StateAt(locs, rx, root, x).excludedBy; r.Some? ==> !(r.value.kind.match_ == Exact && r.value.value == FullPath(x))
    ensures var after := StateAt(Activated(locs, rx, root, x, stem, confirm), rx, root, q);
            if at <= q then ShownExcluded(after) <==> LeftExcluded(locs[i].rules, rx, root, at, x, n, q)
            else after == StateAt(locs, rx, root, q)
  {
    ClickOnExcluded(locs, rx, root, i, at, x, n, stem, confirm);
    Geometry(locs, rx, root, i, at, x, n);
    hide StateAt, ShownExcluded, NodeAt, LocationRoot, Including, Activated;
    EditShows(locs, rx, root, i, at, Including(locs[i].rules, root, x, n), q);
    TreeAt(locs, rx, root, i, at, q);
    ExcludedStillExactly(locs[i].rules, rx, root, at, x, n, q);
  }

  lemma ExcludedStillExactly(rules: seq<Rule>, rx: RegexLibrary, root: FileNode, at: Path, x: Path, n: nat, q: Path)
    requires 0 < n <= |x| && GoodPath(x) && GoodPath(q)
    ensures ExcludedOnTheWay(Including(rules, root, x, n), rx, root, at, q) <==> LeftExcluded(rules, rx, root, at, x, n, q)
  {
    hide Including, NameMatch, FindsBelow;
    var now := Including(rules, root, x, n);
    forall k | |at| < k <= |q|
      ensures ExcludedByName(now, rx, root, q[..k]) <==> ExcludedStill(rules, rx, root, x, n, q[..k])
    {
      GoodPrefix(q, k);
      IncludingMatches(rules, root, rx, x, n, q[..k]);
    }
    hide ExcludedByName, ExcludedStill;
  }

  /**
   * Nothing is escaped in the expressions. Where a rule excludes directory `x` and, beside or below it,
   * also `q`, a click on `x` includes `q` exactly if the expression made for `x` finds `q`, wherever `q` is.
   */
  lemma UnescapedExpressionDecides(rx: RegexLibrary, root: FileNode, x: Path, q: Path, o: Rule, stem: string, confirm: bool)
    requires WellFormed(root) && IsDir(root, x) && |x| == 1 && NodeAt(root, q).Some? && q != [] && q != x && q[..|q| - 1] in {[], x}
    requires o.kind.match_ == Regex && Applies(o, Exclude, rx, FullPath(x), true) && Applies(o, Exclude, rx, FullPath(q), IsDir(root, q))
    ensures var locs := [Location("root", "/", [o])];
            var after := StateAt(Activated(locs, rx, root, x, stem, confirm), rx, root, q);
            && ShownExcluded(StateAt(locs, rx, root, x)) && ShownExcluded(StateAt(locs, rx, root, q))
            && (ShownExcluded(after) <==> !FindsBelow(rx, x, q))
  {
    var locs := [Location("root", "/", [o])];
    ExcludedByOne(rx, root, x, o);
    hide StateAt, FullPath, ExcludedAt, Activated, ShownExcluded, LeftExcluded, Applies, FindsBelow, NodeAt, WellFormed, IsDir;
    Geometry(locs, rx, root, 0, [], x, 1);
    TreeAt(locs, rx, root, 0, [], q);
    ShownExcludedExactly(locs, rx, root, 0, [], q);
    NameMatchOfOne(o, rx, root, q);
    assert q[..|q|] == q;
    assert ExcludedByName([o], rx, root, q[..|q|]);
    ClickOnExcludedShowsExactly(locs, rx, root, 0, [], x, 1, stem, confirm, q);
    LeftExcludedBesideOrBelow(rx, root, x, q, o);
  }

  lemma LeftExcludedBesideOrBelow(rx: RegexLibrary, root: FileNode, x: Path, q: Path, o: Rule)
    requires IsDir(root, x) && |x| == 1 && q != [] && q != x && q[..|q| - 1] in {[], x}
    requires NameMatch([o], Exclude, rx, root, q) && !NameMatch([o], AlwaysInclude, rx, root, q)
    ensures LeftExcluded([o], rx, root, [], x, 1, q) <==> !FindsBelow(rx, x, q)
  {
    hide NameMatch, FindsBelow, IsDir;
    assert q[..|q|] == q;
    assert ExcludedStill([o], rx, root, x, 1, q) <==> !FindsBelow(rx, x, q);
    if |q| > 1 {
      assert q[..1] == x;
      assert !ExcludedStill([o], rx, root, x, 1, x);
    }
  }

  lemma NameMatchOfOne(o: Rule, rx: RegexLibrary, root: FileNode, p: Path)
    requires Applies(o, Exclude, rx, FullPath(p), IsDir(root, p))
    ensures NameMatch([o], Exclude, rx, root, p) && !NameMatch([o], AlwaysInclude, rx, root, p)
  {
    assert o in [o];
  }

  lemma ExcludedByOne(rx: RegexLibrary, root: FileNode, x: Path, o: Rule)
    requires WellFormed(root) && NodeAt(root, x).Some? && |x| == 1
    requires o.kind.match_ == Regex && Applies(o, Exclude, rx, FullPath(x), IsDir(root, x))
    ensures var locs := [Location("root", "/", [o])];
            && ExcludedAt(locs, rx, root, 0, [], x, 1) && StateAt(locs, rx, root, x).excludedBy == Some(o)
            && ShownExcluded(StateAt(locs, rx, root, x))
  {
    hide FullPath;
    var locs := [Location("root", "/", [o])];
    WellFormedAt(root, x);
    RootPath();
    AloneStands(locs[0], []);
    StandingIsRoot(locs, rx, root, 0, []);
    FullPathInjective(x, []);
    assert x[..0] == [];
    assert StateAt(locs, rx, root, []) == NodeState(Some(0), None, None);
    assert [o][1..] == [];
    assert StateAt(locs, rx, root, x) == NodeState(Some(0), Some(o), None);
  }

  // ----- a click on an included node, or on the place of a location -----

  /**
   * A click on an always included node, confirmed if need be, takes one occurrence of the rule in force
   * away, with the fence around the node if it has one. What each node of the tree then shows follows
   * from the rules that are left; outside the location nothing changes.
   */
  lemma ClickOnIncludedShows(locs: seq<Location>, rx: RegexLibrary, root: FileNode, i: nat, at: Path, x: Path, r: Rule,
                             stem: string, confirm: bool, q: Path)
    requires LocationRoot(locs, rx, root, i, at) && NodeAt(root, x).Some? && NodeAt(root, q).Some?
    requires StateAt(locs, rx, root, x).location == Some(i) && StateAt(locs, rx, root, x).includedBy == Some(r)
    requires (r.kind.match_ == Exact && r.value == FullPath(x)) || confirm
    ensures var left := NoLongerIncluding(locs[i].rules, x, r);
            var after := StateAt(Activated(locs, rx, root, x, stem, confirm), rx, root, q);
            && (if at <= q then ShownExcluded(after) <==> ExcludedOnTheWay(left, rx, root, at, q)
                else after == StateAt(locs, rx, root, q))
            && multiset(left) == multiset(locs[i].rules) - Fence(locs[i].rules, x, r) - multiset{r}
  {
    EditShows(locs, rx, root, i, at, NoLongerIncluding(locs[i].rules, x, r), q);
    LeftOver(locs[i].rules, x, r);
  }

  /** The two rules that exclude everything below `x`, if both are there and `r` is a rule for `x` itself. */
  ghost function Fence(rules: seq<Rule>, x: Path, r: Rule): multiset<Rule> {
    var f, d := BelowRule(Exclude, ForFile, x), BelowRule(Exclude, ForDir, x);
    if r.kind.match_ == Exact && r.value == FullPath(x) && Fenced(rules, x) then multiset{f, d} else multiset{}
  }

  /** The fence has the text that a click on an excluded node below has written. */
  lemma FenceText(rules: seq<Rule>, x: Path, r: Rule)
    ensures var f, d := Rule(RuleType(Exclude, ForFile, Regex), "^" + FullPath(x) + "/"), Rule(RuleType(Exclude, ForDir, Regex), "^" + FullPath(x) + "/");
            Fence(rules, x, r) ==
            if r.kind.match_ == Exact && r.value == FullPath(x) && f in rules && d in rules then multiset{f, d} else multiset{}
  {
    hide FullPath;
  }

  lemma LeftOver(rules: seq<Rule>, x: Path, r: Rule)
    ensures multiset(NoLongerIncluding(rules, x, r)) == multiset(rules) - Fence(rules, x, r) - multiset{r}
  {
    hide Removed, FullPath, BelowRule;
    var f, d := BelowRule(Exclude, ForFile, x), BelowRule(Exclude, ForDir, x);
    RemovedOnce(rules, f);
    RemovedOnce(Removed(rules, f), d);
    RemovedOnce(Removed(Removed(rules, f), d), r);
    RemovedOnce(rules, r);
    TakeBoth(multiset(rules), f, d);
    assert multiset(rules) - multiset{} == multiset(rules);
  }

  lemma TakeBoth(all: multiset<Rule>, f: Rule, d: Rule)
    ensures all - multiset{f} - multiset{d} == all - multiset{f, d}
  {
  }

  lemma {:induction false} FindLocationAppend(locs: seq<Location>, l: Location, path: string)
    ensures FindLocation(locs + [l], path) ==
            if FindLocation(locs, path).Some? then FindLocation(locs, path)
            else if l.path == path then Some(|locs|) else None
  {
    if locs == [] {
      assert locs + [l] == [l] && [l][1..] == [];
    } else {
      assert (locs + [l])[0] == locs[0] && (locs + [l])[1..] == locs[1..] + [l];
      FindLocationAppend(locs[1..], l, path);
    }
  }

  /**
   * A click outside all locations adds one: everything at and below the node is then in it, under no
   * rule, whatever location it was in before; all other nodes keep their state.
   */
  lemma {:induction false} ClickOutsideShows(locs: seq<Location>, rx: RegexLibrary, root: FileNode, x: Path, stem: string, confirm: bool, q: Path)
    requires GoodPath(x) && GoodPath(q) && StateAt(locs, rx, root, x).location.None?
    ensures StateAt(Activated(locs, rx, root, x, stem, confirm), rx, root, q) ==
            if x <= q then NodeState(Some(|locs|), None, None) else StateAt(locs, rx, root, q)
    decreases |q|
  {
    assert Activated(locs, rx, root, x, stem, confirm) == locs + [Location(FreshName.Fresh(Names(locs), stem), FullPath(x), [])];
    AddedLocationShows(locs, Location(FreshName.Fresh(Names(locs), stem), FullPath(x), []), rx, root, x, q);
  }

  /** The location that is added is at the end, for the node clicked, with no rules and a name of its own. */
  lemma ClickOutsideAdds(locs: seq<Location>, rx: RegexLibrary, root: FileNode, x: Path, stem: string, confirm: bool)
    requires StateAt(locs, rx, root, x).location.None?
    ensures var now := Activated(locs, rx, root, x, stem, confirm);
            && |now| == |locs| + 1 && now[..|locs|] == locs
            && now[|locs|].path == FullPath(x) && now[|locs|].rules == []
            && forall l :: l in locs ==> l.name != now[|locs|].name
  {
    hide StateAt, FullPath;
    NamesHaveAll(locs);
  }

  lemma {:induction false} NamesHaveAll(locs: seq<Location>)
    ensures forall l :: l in locs ==> l.name in Names(locs)
  {
    if locs != [] {
      NamesHaveAll(locs[1..]);
      assert locs == [locs[0]] + locs[1..];
    }
  }

  lemma {:induction false} AddedLocationShows(locs: seq<Location>, l: Location, rx: RegexLibrary, root: FileNode, x: Path, q: Path)
    requires GoodPath(x) && GoodPath(q) && StateAt(locs, rx, root, x).location.None? && l.path == FullPath(x) && l.rules == []
    ensures StateAt(locs + [l], rx, root, q) == if x <= q then NodeState(Some(|locs|), None, None) else StateAt(locs, rx, root, q)
    decreases |q|
  {
    hide Updated, FindLocation, FullPath, Judge;
    FullPathInjective(x, q);
    OutsideHasNoRules(locs, rx, root, x);
    var parent := Outside;
    if q != [] {
      var up := q[..|q| - 1];
      AddedLocationShows(locs, l, rx, root, x, up);
      assert x <= q && x != q ==> x <= up;
      assert x <= up ==> x <= q;
      parent := StateAt(locs, rx, root, up);
    }
    if x == q { ParentOutside(locs, rx, root, q); }
    hide StateAt;
    if x < q {
      UpdatedInNew(locs, l, rx, FullPath(q), IsDir(root, q));
    } else {
      UpdatedElsewhere(locs, l, rx, parent, FullPath(q), IsDir(root, q), q == x);
    }
  }

  lemma ParentOutside(locs: seq<Location>, rx: RegexLibrary, root: FileNode, q: Path)
    requires StateAt(locs, rx, root, q).location.None?
    ensures q != [] ==> StateAt(locs, rx, root, q[..|q| - 1]) == Outside
    ensures FindLocation(locs, FullPath(q)).None?
  {
    if q != [] { OutsideHasNoRules(locs, rx, root, q[..|q| - 1]); }
  }

  lemma UpdatedInNew(locs: seq<Location>, l: Location, rx: RegexLibrary, path: string, isDir: bool)
    requires l.rules == []
    ensures var s := NodeState(Some(|locs|), None, None); Updated(locs + [l], rx, s, path, isDir) == s
  {
  }

  lemma UpdatedElsewhere(locs: seq<Location>, l: Location, rx: RegexLibrary, parent: NodeState, path: string, isDir: bool, here: bool)
    requires parent.location.Some? ==> parent.location.value < |locs|
    requires here <==> l.path == path
    requires here ==> parent == Outside && FindLocation(locs, path).None?
    ensures Updated(locs + [l], rx, parent, path, isDir) ==
            if here then NodeState(Some(|locs|), None, None) else Updated(locs, rx, parent, path, isDir)
  {
    hide FirstMatch;
    FindLocationAppend(locs, l, path);
  }

  /** A click on a node that no rule is in force for, below the place of its location, adds its own rule, written out here, and excludes what is at and below it. */
  lemma PlainClickShows(locs: seq<Location>, rx: RegexLibrary, root: FileNode, i: nat, at: Path, x: Path, stem: string, confirm: bool, q: Path)
    requires LocationRoot(locs, rx, root, i, at) && at < x && NodeAt(root, x).Some? && NodeAt(root, q).Some?
    requires var s := StateAt(locs, rx, root, x); s.location == Some(i) && s.excludedBy.None? && s.includedBy.None?
    ensures var now := Activated(locs, rx, root, x, stem, confirm);
            var r, rules := Rule(RuleType(Exclude, if IsDir(root, x) then ForDir else ForFile, Exact), FullPath(x)), locs[i].rules;
            && now == locs[i := Location(locs[i].name, locs[i].path, if r in rules then rules else rules + [r])]
            && if x <= q then ShownExcluded(StateAt(now, rx, root, q)) else StateAt(now, rx, root, q) == StateAt(locs, rx, root, q)
  {
    hide StateAt, FullPath, IsDir;
    WellFormedAt(root, at);
    WellFormedAt(root, x);
    FullPathInjective(at, x);
    ExcludingShows(locs, rx, root, i, at, x, q);
  }

  /**
   * A click on a node that its own rule excludes takes that rule away, once. The node is then included
   * exactly when the rule was in the list once and no other excludes the node.
   */
  lemma ExactClickShows(locs: seq<Location>, rx: RegexLibrary, root: FileNode, i: nat, at: Path, x: Path, r: Rule, stem: string, confirm: bool)
    requires LocationRoot(locs, rx, root, i, at) && at < x && NodeAt(root, x).Some?
    requires StateAt(locs, rx, root, x) == NodeState(Some(i), Some(r), None) && r.kind.match_ == Exact && r.value == FullPath(x)
    ensures var now, rules := Activated(locs, rx, root, x, stem, confirm), locs[i].rules;
            && |now| == |locs| && (forall j :: 0 <= j < |locs| && j != i ==> now[j] == locs[j])
            && now[i].name == locs[i].name && now[i].path == locs[i].path && multiset(now[i].rules) == multiset(rules) - multiset{r}
            && (ShownExcluded(StateAt(now, rx, root, x)) <==>
                multiset(rules)[r] > 1 || exists o :: o in rules && o != r && Applies(o, Exclude, rx, FullPath(x), IsDir(root, x)))
            && forall q :: GoodPath(q) && !(x <= q) ==> StateAt(now, rx, root, q) == StateAt(locs, rx, root, q)
  {
    hide StateAt, FullPath, IsDir, Applies, Removed;
    RemovingExactRuleShows(locs, rx, root, i, at, x, r);
    RemovedHasTheRest(locs[i].rules, r);
  }

  /** Without the confirmation that is asked for, the click changes nothing. */
  lemma UnconfirmedClickKeeps(locs: seq<Location>, rx: RegexLibrary, root: FileNode, x: Path, stem: string)
    requires StateAt(locs, rx, root, x).location.Some?
    requires var s := StateAt(locs, rx, root, x);
             if s.includedBy.Some? then s.includedBy.value.kind.match_ != Exact || s.includedBy.value.value != FullPath(x)
             else s.excludedBy.None? && locs[s.location.value].path == FullPath(x)
    ensures Activated(locs, rx, root, x, stem, false) == locs
  {
    hide StateAt, FullPath;
  }

  /** The place of a location, and the states, once location `i` is gone. */
  function MovedUp(l: Option<nat>, i: nat): Option<nat> {
    if l.Some? && l.value > i then Some(l.value - 1) else l
  }

  function Shifted(s: NodeState, i: nat): NodeState {
    s.(location := MovedUp(s.location, i))
  }

  lemma FindLocationWithout(locs: seq<Location>, i: nat, path: string)
    requires i < |locs| && locs[i].path != path
    ensures FindLocation(locs[..i] + locs[i + 1..], path) == MovedUp(FindLocation(locs, path), i)
    ensures FindLocation(locs, path) != Some(i)
  {
    hide FindLocation;
    var less, r := locs[..i] + locs[i + 1..], FindLocation(locs, path);
    forall j | 0 <= j < |less|
      ensures less[j] == locs[if j < i then j else j + 1]
    {
      LeftIsOther(locs, i, j);
    }
    if r.Some? {
      FirstIsFirst(locs, path);
      OtherIsLeft(locs, i, r.value);
      FirstLocation(less, path, MovedUp(r, i).value);
    }
  }

  lemma OtherIsLeft(locs: seq<Location>, i: nat, j: nat)
    requires i < |locs| && j < |locs| && j != i
    ensures var less, k := locs[..i] + locs[i + 1..], if j < i then j else j - 1;
            k < |less| && less[k] == locs[j]
  {
  }

  lemma LeftIsOther(locs: seq<Location>, i: nat, j: nat)
    requires i < |locs| && j < |locs| - 1
    ensures var less, k := locs[..i] + locs[i + 1..], if j < i then j else j + 1;
            |less| == |locs| - 1 && less[j] == locs[k]
  {
  }

  /** A location among the others has its path at some node from `x` down to `q`. */
  ghost predicate OtherOnTheWay(locs: seq<Location>, i: nat, x: Path, q: Path) {
    exists j, k :: 0 <= j < |locs| && j != i && |x| <= k <= |q| && locs[j].path == FullPath(q[..k])
  }

  /** Where the location of `q` begins, at or below `x`, and what `q` shows follows from its rules. */
  ghost predicate ShowsFrom(locs: seq<Location>, rx: RegexLibrary, root: FileNode, x: Path, at: Path, q: Path) {
    var s := StateAt(locs, rx, root, q);
    && x <= at <= q && s.location.Some? && LocationRoot(locs, rx, root, s.location.value, at)
    && (ShownExcluded(s) <==> ExcludedOnTheWay(locs[s.location.value].rules, rx, root, at, q))
  }

  /**
   * A confirmed click on the place of a location removes it: what is not below keeps its state, with the
   * later locations moved up by one. What is below is outside all locations exactly if no other one has
   * its place on the way; and if one has, it shows what that one's rules say.
   */
  lemma ClickOnLocationShows(locs: seq<Location>, rx: RegexLibrary, root: FileNode, i: nat, x: Path, stem: string, q: Path)
    requires LocationRoot(locs, rx, root, i, x) && NodeAt(root, q).Some?
    ensures var now := Activated(locs, rx, root, x, stem, true);
            var after := StateAt(now, rx, root, q);
            && (!(x <= q) ==> after == Shifted(StateAt(locs, rx, root, q), i))
            && (x <= q && !OtherOnTheWay(locs, i, x, q) ==> after == Outside)
            && (x <= q && OtherOnTheWay(locs, i, x, q) ==> exists at :: ShowsFrom(now, rx, root, x, at, q))
  {
    TreeAt(locs, rx, root, i, x, q);
    RootGone(locs, rx, root, i, x, stem);
    hide StateAt, Standing, OtherOnTheWay, NodeAt, ShownExcluded, Activated;
    var less := locs[..i] + locs[i + 1..];
    if x <= q {
      BelowIsOutside(locs, rx, root, i, x, q);
      if OtherOnTheWay(locs, i, x, q) {
        var at := LocationBegins(less, rx, root, q);
        WellFormedAt(root, at);
        ShownExcludedExactly(less, rx, root, StateAt(less, rx, root, q).location.value, at, q);
        BeginsBelow(locs, rx, root, i, x, q, at);
        assert ShowsFrom(less, rx, root, x, at, q);
      }
    } else {
      OthersShift(locs, rx, root, i, x, q);
    }
  }

  /** A node in a location is at or below the place where it begins. */
  lemma {:induction false} LocationBegins(locs: seq<Location>, rx: RegexLibrary, root: FileNode, q: Path) returns (at: Path)
    requires WellFormed(root) && NodeAt(root, q).Some? && StateAt(locs, rx, root, q).location.Some?
    ensures at <= q && LocationRoot(locs, rx, root, StateAt(locs, rx, root, q).location.value, at)
    decreases |q|
  {
    hide StateAt;
    LocationAtOrAbove(locs, rx, root, q);
    if q != [] && StateAt(locs, rx, root, q[..|q| - 1]).location.Some? {
      NodeAtPrefix(root, q, |q| - 1);
      at := LocationBegins(locs, rx, root, q[..|q| - 1]);
    } else {
      at := q;
    }
  }

  lemma BeginsBelow(locs: seq<Location>, rx: RegexLibrary, root: FileNode, i: nat, x: Path, q: Path, at: Path)
    requires LocationRoot(locs, rx, root, i, x) && x <= q && at <= q
    requires exists j :: 0 <= j < |locs| && locs[j].path == FullPath(at)
    ensures x <= at
  {
    assert at == q[..|at|];
    assert forall k :: 0 <= k < |x| ==> q[..k] == x[..k];
    StandingIsRoot(locs, rx, root, i, x);
  }

  lemma RootGone(locs: seq<Location>, rx: RegexLibrary, root: FileNode, i: nat, x: Path, stem: string)
    requires LocationRoot(locs, rx, root, i, x)
    ensures Activated(locs, rx, root, x, stem, true) == locs[..i] + locs[i + 1..]
  {
    LocationRootState(locs, rx, root, i, x);
    StandingIsRoot(locs, rx, root, i, x);
    hide StateAt;
    WithoutAt(locs, locs[i], i);
  }

  lemma {:induction false} OthersShift(locs: seq<Location>, rx: RegexLibrary, root: FileNode, i: nat, x: Path, q: Path)
    requires LocationRoot(locs, rx, root, i, x) && GoodPath(q) && !(x <= q)
    ensures StateAt(locs[..i] + locs[i + 1..], rx, root, q) == Shifted(StateAt(locs, rx, root, q), i)
    ensures StateAt(locs, rx, root, q).location != Some(i)
    decreases |q|
  {
    WellFormedAt(root, x);
    FullPathInjective(x, q);
    var parent := Outside;
    hide Updated, FullPath, WellFormed, FindLocation, NodeAt;
    if q != [] {
      assert x <= q[..|q| - 1] ==> x <= q;
      OthersShift(locs, rx, root, i, x, q[..|q| - 1]);
      parent := StateAt(locs, rx, root, q[..|q| - 1]);
    }
    assert locs[i].path != FullPath(q);
    UpdatedShifts(locs, i, rx, parent, FullPath(q), IsDir(root, q));
  }

  lemma UpdatedShifts(locs: seq<Location>, i: nat, rx: RegexLibrary, parent: NodeState, path: string, isDir: bool)
    requires i < |locs| && locs[i].path != path && parent.location != Some(i)
    requires parent.location.Some? ==> parent.location.value < |locs|
    ensures var less := locs[..i] + locs[i + 1..];
            Updated(less, rx, Shifted(parent, i), path, isDir) == Shifted(Updated(locs, rx, parent, path, isDir), i)
    ensures Updated(locs, rx, parent, path, isDir).location != Some(i)
  {
    hide Judge, FindLocation;
    FindLocationWithout(locs, i, path);
  }

  lemma BelowIsOutside(locs: seq<Location>, rx: RegexLibrary, root: FileNode, i: nat, x: Path, q: Path)
    requires LocationRoot(locs, rx, root, i, x) && x <= q
    ensures var after := StateAt(locs[..i] + locs[i + 1..], rx, root, q);
            if OtherOnTheWay(locs, i, x, q) then after.location.Some? else after == Outside
  {
    var less := locs[..i] + locs[i + 1..];
    StandingIsRoot(locs, rx, root, i, x);
    OutsideAllLocations(less, rx, root, q);
    hide StateAt, FullPath, WellFormed, NodeAt, OtherOnTheWay, NoneAbove;
    OthersAreLeft(locs, i, x, q);
    if StateAt(less, rx, root, q).location.None? { OutsideHasNoRules(less, rx, root, q); }
  }

  lemma OthersAreLeft(locs: seq<Location>, i: nat, x: Path, q: Path)
    requires i < |locs| && NoneAbove(locs, x) && x <= q
    ensures var less := locs[..i] + locs[i + 1..];
            OtherOnTheWay(locs, i, x, q) <==> !(NoneAbove(less, q) && forall j :: 0 <= j < |less| ==> less[j].path != FullPath(q))
  {
    hide FullPath;
    var less := locs[..i] + locs[i + 1..];
    assert q[..|q|] == q;
    if OtherOnTheWay(locs, i, x, q) {
      var j, k :| 0 <= j < |locs| && j != i && |x| <= k <= |q| && locs[j].path == FullPath(q[..k]);
      OtherIsLeft(locs, i, j);
      assert NoneAbove(less, q) ==> k == |q|;
    } else {
      forall j, k | 0 <= j < |less| && 0 <= k <= |q|
        ensures less[j].path != FullPath(q[..k])
      {
        LeftIsOther(locs, i, j);
        assert k < |x| ==> q[..k] == x[..k];
      }
    }
  }

  /** A rule for exactly a file that is removed by a click on it, with another rule that excludes the file and goes on to do so. */
  lemma RemovingExactRuleExample(rx: RegexLibrary, root: FileNode, f: Path, o: Rule, stem: string, confirm: bool)
    requires WellFormed(root) && NodeAt(root, f).Some? && NodeAt(root, f).value.PlainFile? && |f| == 1
    requires Applies(o, Exclude, rx, FullPath(f), false)
    ensures var locs := [Location("root", "/", [FileRule(f), o])];
            && StateAt(locs, rx, root, f).excludedBy == Some(FileRule(f))
            && ShownExcluded(StateAt(Activated(locs, rx, root, f, stem, confirm), rx, root, f))
  {
    hide FullPath;
    var rules := [FileRule(f), o];
    var locs := [Location("root", "/", rules)];
    WellFormedAt(root, f);
    RootPath();
    AloneStands(locs[0], []);
    StandingIsRoot(locs, rx, root, 0, []);
    FullPathInjective(f, []);
    assert f[..0] == [];
    assert StateAt(locs, rx, root, []) == NodeState(Some(0), None, None);
    assert rules[1..] == [o] && [o][1..] == [] && FirstMatch([o], AlwaysInclude, rx, FullPath(f), false) == None;
    assert StateAt(locs, rx, root, f) == NodeState(Some(0), Some(FileRule(f)), None);
    RemovingExactRuleShows(locs, rx, root, 0, [], f, FileRule(f));
    if o == FileRule(f) { assert multiset(rules) == multiset{o, o}; }
    assert o in rules;
  }

  /**
   * Three clicks put a location inside another: on a directory, on a file below it, and on the root. The
   * scan of the inner location then leaves out the file, and the tree shows it as not excluded.
   */
  lemma NestedByClicks(rx: RegexLibrary, root: FileNode, a: Path, x: Path, s1: string, s2: string, s3: string, confirm: bool)
    requires WellFormed(root) && NodeAt(root, x).Some? && NodeAt(root, x).value.PlainFile? && a < x && a != []
    ensures var one := Activated([], rx, root, a, s1, confirm);
            var two := Activated(one, rx, root, x, s2, confirm);
            var three := Activated(two, rx, root, [], s3, confirm);
            && |three| == 2 && three[0].path == FullPath(a) && IsDir(root, a)
            && !Standing(three, 0, a) && !ShownExcluded(StateAt(three, rx, root, x)) && !ScanAgrees(three, rx, root, 0, a)
  {
    hide StateAt, Standing, FilesBelow, ScanAgrees, ShownExcluded;
    WellFormedAt(root, x);
    NodeAtPrefix(root, x, |a|);
    assert x[..|a|] == a;
    WellFormedAt(root, a);
    var two := SecondClick(rx, root, a, x, s1, s2, confirm);
    var three := ThirdClick(two, rx, root, a, s3, confirm);
    FullPathInjective(a, x);
    assert three[0].rules == [FileRule(x)];
    FilesBelowHasAll(root, a, NodeAt(root, a).value, x);
    NotStandingBelowRoot(three, a);
    NestedScanMisses(three, rx, root, 0, a, x);
  }

  lemma FirstClick(rx: RegexLibrary, root: FileNode, a: Path, stem: string, confirm: bool) returns (one: seq<Location>)
    ensures one == Activated([], rx, root, a, stem, confirm)
    ensures |one| == 1 && one[0].path == FullPath(a) && one[0].rules == []
  {
    one := Activated([], rx, root, a, stem, confirm);
  }

  lemma SecondClick(rx: RegexLibrary, root: FileNode, a: Path, x: Path, s1: string, s2: string, confirm: bool) returns (two: seq<Location>)
    requires WellFormed(root) && NodeAt(root, x).Some? && NodeAt(root, x).value.PlainFile? && a < x && a != []
    requires NodeAt(root, a).Some?
    ensures two == Activated(Activated([], rx, root, a, s1, confirm), rx, root, x, s2, confirm)
    ensures |two| == 1 && two[0].path == FullPath(a) && two[0].rules == [FileRule(x)]
  {
    hide StateAt, LocationRoot, FullPath;
    var one := FirstClick(rx, root, a, s1, confirm);
    WellFormedAt(root, x);
    WellFormedAt(root, a);
    AloneStands(one[0], a);
    assert one == [one[0]];
    StandingIsRoot(one, rx, root, 0, a);
    LocationInherited(one, rx, root, 0, a, x);
    NoRulesInForce(one, rx, root, 0, x);
    FullPathInjective(a, x);
    assert [] + [FileRule(x)] == [FileRule(x)];
    two := Activated(one, rx, root, x, s2, confirm);
  }

  lemma ThirdClick(two: seq<Location>, rx: RegexLibrary, root: FileNode, a: Path, stem: string, confirm: bool) returns (three: seq<Location>)
    requires |two| == 1 && two[0].path == FullPath(a) && GoodPath(a) && a != []
    ensures three == Activated(two, rx, root, [], stem, confirm)
    ensures |three| == 2 && three[0] == two[0] && three[1].path == FullPath([]) && three[1].rules == []
  {
    FullPathInjective(a, []);
    OutsideAllLocations(two, rx, root, []);
    three := Activated(two, rx, root, [], stem, confirm);
  }

  lemma NotStandingBelowRoot(locs: seq<Location>, a: Path)
    requires |locs| == 2 && locs[1].path == FullPath([]) && a != []
    ensures !Standing(locs, 0, a)
  {
    assert a[..0] == [];
  }

  ghost predicate AtMostOnce(rules: seq<Rule>, r: Rule) {
    multiset(rules)[r] <= 1
  }

  /** A rule that is inserted or added is not there twice afterwards, if it was not before. */
  lemma InsertedAtMostOnce(rules: seq<Rule>, pos: int, r: Rule, own: Rule)
    requires AtMostOnce(rules, own)
    ensures AtMostOnce(Inserted(rules, pos, r), own) && AtMostOnce(Added(rules, r), own)
  {
    if r !in rules {
      assert r !in multiset(rules);
      var k := if pos < 0 then 0 else if pos > |rules| then |rules| else pos;
      assert rules == rules[..k] + rules[k..];
    }
  }

  lemma {:induction false} InsertIncludesAtMostOnce(rules: seq<Rule>, pos: int, root: FileNode, p: Path, n: nat, own: Rule)
    requires n <= |p| && AtMostOnce(rules, own)
    ensures AtMostOnce(InsertIncludes(rules, pos, root, p, n), own)
    decreases n
  {
    if n > 0 {
      var r := ExactRule(AlwaysInclude, root, p);
      InsertedAtMostOnce(rules, pos, r, own);
      InsertIncludesAtMostOnce(Inserted(rules, pos, r), pos, root, p[..|p| - 1], n - 1, own);
    }
  }

  lemma IncludingAtMostOnce(rules: seq<Rule>, root: FileNode, x: Path, n: nat, own: Rule)
    requires 0 < n <= |x| && AtMostOnce(rules, own)
    ensures AtMostOnce(Including(rules, root, x, n), own)
  {
    hide AtMostOnce, Inserted, Added;
    var pos, top := |rules|, x[..|x| - n + 1];
    var chain := InsertIncludes(rules, pos, root, x, n);
    InsertIncludesAtMostOnce(rules, pos, root, x, n, own);
    var f, d := BelowRule(Exclude, ForFile, top), BelowRule(Exclude, ForDir, top);
    InsertedAtMostOnce(chain, pos, f, own);
    InsertedAtMostOnce(Inserted(chain, pos, f), pos, d, own);
    var fenced := if n == 1 then chain else Inserted(Inserted(chain, pos, f), pos, d);
    var xd, xf := BelowRule(AlwaysInclude, ForDir, x), BelowRule(AlwaysInclude, ForFile, x);
    InsertedAtMostOnce(fenced, pos, xd, own);
    InsertedAtMostOnce(Added(fenced, xd), pos, xf, own);
    InsertedAtMostOnce(fenced, pos, ExactRule(AlwaysInclude, root, x), own);
  }

  lemma MadeIncludesOnlyByOwn(rx: RegexLibrary, root: FileNode, x: Path, n: nat, r: Rule)
    requires 0 < n <= |x| && IsMade(r, root, x, n) && GoodPath(x) && (IsDir(root, x) ==> !FindsBelow(rx, x, x))
    requires Applies(r, AlwaysInclude, rx, FullPath(x), IsDir(root, x))
    ensures r == ExactRule(AlwaysInclude, root, x)
  {
    if j :| |x| - n < j <= |x| && r == ExactRule(AlwaysInclude, root, x[..j]) {
      GoodPrefix(x, j);
      ExactRuleApplies(root, rx, AlwaysInclude, x[..j], x);
    } else {
      BelowRuleApplies(root, rx, AlwaysInclude, r.kind.fileDir, x, x);
    }
  }

  /** A rule of the new list is an old one or a made one, and all of those are in it. */
  lemma IncludingMembers(rules: seq<Rule>, root: FileNode, x: Path, n: nat, r: Rule)
    requires 0 < n <= |x|
    ensures r in Including(rules, root, x, n) <==> r in rules || IsMade(r, root, x, n)
  {
    hide IsMade, Including;
    IncludingExtends(rules, root, x, n);
    var now := Including(rules, root, x, n);
    assert now == rules + now[|rules|..];
  }

  /** Among the rules made for `x`, only the exact one always includes `x` itself. */
  lemma OwnRuleIncludes(rules: seq<Rule>, rx: RegexLibrary, root: FileNode, x: Path, n: nat, r: Rule)
    requires 0 < n <= |x| && GoodPath(x) && (IsDir(root, x) ==> !FindsBelow(rx, x, x))
    requires !NameMatch(rules, AlwaysInclude, rx, root, x) && r in Including(rules, root, x, n)
    ensures Applies(r, AlwaysInclude, rx, FullPath(x), IsDir(root, x)) ==> r == ExactRule(AlwaysInclude, root, x)
  {
    hide Including, FindsBelow, Applies, IsMade, ExactRule, FullPath, IsDir;
    if Applies(r, AlwaysInclude, rx, FullPath(x), IsDir(root, x)) {
      IncludingMembers(rules, root, x, n, r);
      MadeIncludesOnlyByOwn(rx, root, x, n, r);
    }
  }

  lemma BelowRuleNotOnTheWay(fileDir: FileDir, rx: RegexLibrary, root: FileNode, x: Path, q: Path)
    requires MeansBelow(rx, x, q) && !(x <= q)
    ensures NotOnTheWay(BelowRule(Exclude, fileDir, x), rx, root, q)
  {
    forall sense, k | 0 <= k <= |q|
      ensures !Applies(BelowRule(Exclude, fileDir, x), sense, rx, FullPath(q[..k]), IsDir(root, q[..k]))
    {
      assert !(x < q[..k]);
      BelowRuleApplies(root, rx, Exclude, fileDir, x, q[..k]);
    }
  }

  /** The included node is shown to obey the rule that the click has made for it. */
  lemma IncludedByOwnRule(locs: seq<Location>, rx: RegexLibrary, root: FileNode, i: nat, at: Path, x: Path, n: nat)
    requires ExcludedAt(locs, rx, root, i, at, x, n) && Meant(rx, root, x, n, x)
    requires !NameMatch(locs[i].rules, AlwaysInclude, rx, root, x)
    ensures StateAt(WithIncluded(locs, i, root, x, n), rx, root, x).includedBy == Some(ExactRule(AlwaysInclude, root, x))
    ensures StateAt(WithIncluded(locs, i, root, x, n), rx, root, x).location == Some(i)
    ensures ExactRule(AlwaysInclude, root, x) in Including(locs[i].rules, root, x, n)
  {
    hide StateAt, Including, FirstMatch, FindsBelow, ShownExcluded, Applies, ExcludedHeight;
    Geometry(locs, rx, root, i, at, x, n);
    MeantPrefix(rx, root, x, n, x, |x| - n);
    assert x[..|x|] == x;
    var rules, locs' := locs[i].rules, WithIncluded(locs, i, root, x, n);
    var now, own := Including(rules, root, x, n), ExactRule(AlwaysInclude, root, x);
    ChainIncluded(locs, rx, root, i, at, x, n, |x| - 1);
    LocationRootKept(locs, i, now, rx, root, at);
    OwnRuleIsMade(rules, root, x, n);
    ExactRuleApplies(root, rx, AlwaysInclude, x, x);
    FirstMatchIsAnyMatch(now, AlwaysInclude, rx, FullPath(x), IsDir(root, x));
    OwnRuleIncludes(rules, rx, root, x, n, FirstMatch(now, AlwaysInclude, rx, FullPath(x), IsDir(root, x)).value);
    IncludedByFirstMatch(locs', rx, root, i, at, x);
  }

  lemma OwnRuleIsMade(rules: seq<Rule>, root: FileNode, x: Path, n: nat)
    requires 0 < n <= |x|
    ensures ExactRule(AlwaysInclude, root, x) in Including(rules, root, x, n)
  {
    IncludingMembers(rules, root, x, n, ExactRule(AlwaysInclude, root, x));
    assert x[..|x|] == x;
    assert IsMade(ExactRule(AlwaysInclude, root, x), root, x, n);
  }

  /** Below a node that is not excluded, the including rule is the first that matches. */
  lemma IncludedByFirstMatch(locs: seq<Location>, rx: RegexLibrary, root: FileNode, i: nat, at: Path, x: Path)
    requires LocationRoot(locs, rx, root, i, at) && at < x && GoodPath(x)
    requires !ShownExcluded(StateAt(locs, rx, root, x[..|x| - 1]))
    ensures StateAt(locs, rx, root, x).location == Some(i)
    ensures StateAt(locs, rx, root, x).includedBy == FirstMatch(locs[i].rules, AlwaysInclude, rx, FullPath(x), IsDir(root, x))
  {
    assert at <= x[..|x| - 1];
    LocationInherited(locs, rx, root, i, at, x[..|x| - 1]);
    FullPathInjective(x, []);
    WellFormedAt(root, at);
    FullPathInjective(x, at);
  }

  /** Removing rules that match nothing on the way, one after the other, keeps what is shown. */
  lemma KeptByNoLongerIncluding(locs: seq<Location>, rx: RegexLibrary, root: FileNode, i: nat, x: Path, q: Path)
    requires i < |locs| && GoodPath(x) && GoodPath(q) && !(x <= q) && (Fenced(locs[i].rules, x) ==> MeansBelow(rx, x, q))
    ensures StateAt(WithRules(locs, i, NoLongerIncluding(locs[i].rules, x, ExactRule(AlwaysInclude, root, x))), rx, root, q) ==
            StateAt(locs, rx, root, q)
  {
    hide StateAt, Removed, MeansBelow, NotOnTheWay;
    var rules, own := locs[i].rules, ExactRule(AlwaysInclude, root, x);
    var f, d := BelowRule(Exclude, ForFile, x), BelowRule(Exclude, ForDir, x);
    ExactRuleNotOnTheWay(own, rx, root, x, q);
    if Fenced(rules, x) {
      BelowRuleNotOnTheWay(ForFile, rx, root, x, q);
      BelowRuleNotOnTheWay(ForDir, rx, root, x, q);
      var l1 := WithRules(locs, i, Removed(rules, f));
      var l2 := WithRules(l1, i, Removed(l1[i].rules, d));
      KeptByRemoval(locs, i, f, rx, root, q);
      KeptByRemoval(l1, i, d, rx, root, q);
      KeptByRemoval(l2, i, own, rx, root, q);
      assert l2 == WithRules(locs, i, Removed(Removed(rules, f), d));
      assert WithRules(l2, i, Removed(l2[i].rules, own)) == WithRules(locs, i, Removed(l2[i].rules, own));
    } else {
      KeptByRemoval(locs, i, own, rx, root, q);
    }
  }

  lemma NoLongerIncludingHasTheRest(rules: seq<Rule>, x: Path, r: Rule)
    requires AtMostOnce(rules, r)
    ensures var f, d := BelowRule(Exclude, ForFile, x), BelowRule(Exclude, ForDir, x);
            && (forall o :: o in NoLongerIncluding(rules, x, r) ==> o in rules && o != r)
            && (forall o :: o in rules && o != r && (Fenced(rules, x) ==> o != f && o != d) ==> o in NoLongerIncluding(rules, x, r))
  {
    hide Removed;
    var f, d := BelowRule(Exclude, ForFile, x), BelowRule(Exclude, ForDir, x);
    RemovedHasTheRest(rules, f);
    RemovedHasTheRest(Removed(rules, f), d);
    RemovedHasTheRest(Removed(Removed(rules, f), d), r);
    RemovedHasTheRest(rules, r);
  }

  /**
   * A second click on the node takes the first one back for it and, through it, for what is
   * below: it is excluded again, and nothing that is not at or below it changes. The expressions that
   * the first click makes, and those that the second takes away, are to mean what they are meant to.
   */
  lemma SecondClickExcludes(locs: seq<Location>, rx: RegexLibrary, root: FileNode, i: nat, at: Path, x: Path, n: nat,
                            stem: string, confirm: bool)
    requires ExcludedAt(locs, rx, root, i, at, x, n) && Meant(rx, root, x, n, x)
    requires Fenced(locs[i].rules, x) ==> !FindsBelow(rx, x, x)
    requires !NameMatch(locs[i].rules, AlwaysInclude, rx, root, x)
    ensures var once := WithIncluded(locs, i, root, x, n);
            var twice := Activated(once, rx, root, x, stem, confirm);
            && (forall q :: x <= q && NodeAt(root, q).Some? ==> ShownExcluded(StateAt(twice, rx, root, q)))
            && (forall q :: GoodPath(q) && !(x <= q) && (Fenced(locs[i].rules, x) ==> MeansBelow(rx, x, q)) ==>
                  StateAt(twice, rx, root, q) == StateAt(once, rx, root, q))
  {
    var rules, once, own := locs[i].rules, WithIncluded(locs, i, root, x, n), ExactRule(AlwaysInclude, root, x);
    Geometry(locs, rx, root, i, at, x, n);
    IncludedByOwnRule(locs, rx, root, i, at, x, n);
    var now := Including(rules, root, x, n);
    FencedBefore(rules, root, x, n);
    var left := NoLongerIncluding(now, x, own);
    var twice := WithRules(once, i, left);
    hide StateAt, Including, NoLongerIncluding, MeansBelow, Meant, FindsBelow, Fenced, NameMatch, LocationRoot, ShownExcluded, ExcludedHeight;
    assert Activated(once, rx, root, x, stem, confirm) == twice;
    forall q | GoodPath(q) && !(x <= q) && (Fenced(rules, x) ==> MeansBelow(rx, x, q))
      ensures StateAt(twice, rx, root, q) == StateAt(once, rx, root, q)
    {
      KeptByNoLongerIncluding(once, rx, root, i, x, q);
    }
    LocationRootKept(locs, i, now, rx, root, at);
    LocationRootKept(once, i, left, rx, root, at);
    MatchesAfterSecondClick(locs, rx, root, i, at, x, n);
    ShownExcludedStep(twice, rx, root, i, at, x);
    forall q | x <= q && NodeAt(root, q).Some?
      ensures ShownExcluded(StateAt(twice, rx, root, q))
    {
      TreeAt(twice, rx, root, i, at, q);
      ExcludedBelow(twice, rx, root, i, at, x, q);
    }
  }

  /** The fence that including `x` makes is around a node above it. */
  lemma FencedBefore(rules: seq<Rule>, root: FileNode, x: Path, n: nat)
    requires 0 < n <= |x| && GoodPath(x)
    ensures Fenced(Including(rules, root, x, n), x) <==> Fenced(rules, x)
  {
    hide Including, IsMade, BelowRule;
    IncludingMembers(rules, root, x, n, BelowRule(Exclude, ForFile, x));
    IncludingMembers(rules, root, x, n, BelowRule(Exclude, ForDir, x));
    NoFenceAroundItself(root, x, n, ForFile);
    NoFenceAroundItself(root, x, n, ForDir);
  }

  lemma NoFenceAroundItself(root: FileNode, x: Path, n: nat, fileDir: FileDir)
    requires 0 < n <= |x| && GoodPath(x)
    ensures !IsMade(BelowRule(Exclude, fileDir, x), root, x, n)
  {
    hide FullPath, IsDir;
    if n > 1 {
      GoodPrefix(x, |x| - n + 1);
      BelowExpressionInjective(x[..|x| - n + 1], x);
    }
  }

  lemma BelowExpressionInjective(p: Path, q: Path)
    requires GoodPath(p) && GoodPath(q) && p != q
    ensures BelowExpression(p) != BelowExpression(q)
  {
    FullPathInjective(p, q);
    hide FullPath;
    var a, b := BelowExpression(p), BelowExpression(q);
    assert a[1..|a| - 1] == FullPath(p) && b[1..|b| - 1] == FullPath(q);
  }

  lemma MatchesAfterSecondClick(locs: seq<Location>, rx: RegexLibrary, root: FileNode, i: nat, at: Path, x: Path, n: nat)
    requires ExcludedAt(locs, rx, root, i, at, x, n) && Meant(rx, root, x, n, x)
    requires Fenced(locs[i].rules, x) ==> !FindsBelow(rx, x, x)
    requires !NameMatch(locs[i].rules, AlwaysInclude, rx, root, x)
    ensures var left := NoLongerIncluding(Including(locs[i].rules, root, x, n), x, ExactRule(AlwaysInclude, root, x));
            NameMatch(left, Exclude, rx, root, x) && !NameMatch(left, AlwaysInclude, rx, root, x)
  {
    hide Including, NoLongerIncluding, AtMostOnce, StateAt, LocationRoot, NodeAt, FindsBelow, Fenced, Applies, ExactRule, BelowRule;
    Geometry(locs, rx, root, i, at, x, n);
    var rules, own := locs[i].rules, ExactRule(AlwaysInclude, root, x);
    var now := Including(rules, root, x, n);
    FencedBefore(rules, root, x, n);
    NotBelowItself(rx, root, x, n);
    OwnRuleIsNew(rules, rx, root, x);
    IncludingAtMostOnce(rules, root, x, n, own);
    NoLongerIncludingHasTheRest(now, x, own);
    var left := NoLongerIncluding(now, x, own);
    forall r | r in left
      ensures !Applies(r, AlwaysInclude, rx, FullPath(x), IsDir(root, x))
    {
      OwnRuleIncludes(rules, rx, root, x, n, r);
    }
    var r := StillExcludedBy(locs, rx, root, i, at, x, n);
    BelowRuleApplies(root, rx, Exclude, ForFile, x, x);
    BelowRuleApplies(root, rx, Exclude, ForDir, x, x);
    BelowRuleSense(x);
    assert r in left;
  }

  lemma NotBelowItself(rx: RegexLibrary, root: FileNode, x: Path, n: nat)
    requires 0 < n <= |x| && Meant(rx, root, x, n, x)
    ensures IsDir(root, x) ==> !FindsBelow(rx, x, x)
    ensures n > 1 ==> FindsBelow(rx, x[..|x| - n + 1], x)
  {
    hide FindsBelow;
    assert x[..|x|] == x;
  }

  lemma OwnRuleIsNew(rules: seq<Rule>, rx: RegexLibrary, root: FileNode, x: Path)
    requires GoodPath(x) && !NameMatch(rules, AlwaysInclude, rx, root, x)
    ensures AtMostOnce(rules, ExactRule(AlwaysInclude, root, x))
  {
    ExactRuleApplies(root, rx, AlwaysInclude, x, x);
    assert ExactRule(AlwaysInclude, root, x) !in multiset(rules);
  }

  lemma BelowRuleSense(x: Path)
    ensures BelowRule(Exclude, ForFile, x).kind.sense == BelowRule(Exclude, ForDir, x).kind.sense == Exclude
  {
  }

  /** A rule that excludes `x` and that the two clicks leave alone. */
  lemma StillExcludedBy(locs: seq<Location>, rx: RegexLibrary, root: FileNode, i: nat, at: Path, x: Path, n: nat) returns (r: Rule)
    requires ExcludedAt(locs, rx, root, i, at, x, n) && Meant(rx, root, x, n, x)
    ensures r in Including(locs[i].rules, root, x, n) && Applies(r, Exclude, rx, FullPath(x), IsDir(root, x))
    ensures r != ExactRule(AlwaysInclude, root, x)
  {
    Geometry(locs, rx, root, i, at, x, n);
    var rules, top, fd := locs[i].rules, x[..|x| - n + 1], FileDirOf(root, x);
    NotBelowItself(rx, root, x, n);
    hide Including, StateAt, LocationRoot, FindsBelow, FullPath, Applies, IsMade, ShownExcluded;
    if n > 1 {
      GoodPrefix(x, |x| - n + 1);
      BelowRuleApplies(root, rx, Exclude, fd, top, x);
      r := BelowRule(Exclude, fd, top);
      FenceIsMade(root, x, n, fd);
    } else {
      assert top == x && x[..|x| - 1] == x[..|x| - n];
      ShownExcludedStep(locs, rx, root, i, at, x);
      r :| r in rules && Applies(r, Exclude, rx, FullPath(x), IsDir(root, x));
      AppliesSense(r, Exclude, rx, FullPath(x), IsDir(root, x));
    }
    IncludingMembers(rules, root, x, n, r);
  }

  lemma FenceIsMade(root: FileNode, x: Path, n: nat, fileDir: FileDir)
    requires 1 < n <= |x|
    ensures IsMade(BelowRule(Exclude, fileDir, x[..|x| - n + 1]), root, x, n)
  {
  }

  lemma AppliesSense(r: Rule, sense: Sense, rx: RegexLibrary, file: string, isDir: bool)
    requires Applies(r, sense, rx, file, isDir)
    ensures r.kind.sense == sense
  {
  }
}
