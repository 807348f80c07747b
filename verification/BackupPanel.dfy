/**
 * The backup tree panel: node states kept by node, refreshed parent first from some node down
 * (FileTree::UpdateStateIcon), and the click that edits rules and then refreshes only from the
 * node where the edited location begins (BackupLocationsPanel::OnTreeNodeActivate).
 */
module BackupPanel {
  import opened Common
  import opened LocalPath
  import opened ExcludeRules
  import opened BackupTree
  import opened BackupActivation
  import FreshName

  // ----- what a click does to the locations -----

  function Names(locs: seq<Location>): (names: seq<string>)
    ensures |names| == |locs| && forall i :: 0 <= i < |locs| ==> names[i] == locs[i].name
  {
    if locs == [] then [] else [locs[0].name] + Names(locs[1..])
  }

  /** Two rules that exclude everything below `x` are there; a click on the included node takes them away. */
  predicate Fenced(rules: seq<Rule>, x: Path) {
    BelowRule(Exclude, ForFile, x) in rules && BelowRule(Exclude, ForDir, x) in rules
  }

  /** The rules once the AlwaysInclude rule `r`, which is in force for `x`, has been removed. */
  function NoLongerIncluding(rules: seq<Rule>, x: Path, r: Rule): seq<Rule> {
    var cleaned :=
      if r.kind.match_ == Exact && r.value == FullPath(x) && Fenced(rules, x)
      then Removed(Removed(rules, BelowRule(Exclude, ForFile, x)), BelowRule(Exclude, ForDir, x))
      else rules;
    Removed(cleaned, r)
  }

  function WithoutLocation(locs: seq<Location>, l: Location): seq<Location> {
    if locs == [] then []
    else if locs[0] == l then locs[1..]
    else [locs[0]] + WithoutLocation(locs[1..], l)
  }

  /** The locations after a click on `x`; `confirm` answers the question that the click may ask. */
  function Activated(locs: seq<Location>, rx: RegexLibrary, root: FileNode, x: Path, stem: string, confirm: bool): seq<Location> {
    var s := StateAt(locs, rx, root, x);
    if s.location.None? then
      locs + [Location(FreshName.Fresh(Names(locs), stem), FullPath(x), [])]
    else
      var i, rules := s.location.value, locs[s.location.value].rules;
      if s.includedBy.Some? then
        var r := s.includedBy.value;
        if (r.kind.match_ == Exact && r.value == FullPath(x)) || confirm
        then WithRules(locs, i, NoLongerIncluding(rules, x, r)) else locs
      else if s.excludedBy.Some? then
        var r := s.excludedBy.value;
        if r.kind.match_ == Exact && r.value == FullPath(x) then WithRules(locs, i, Removed(rules, r))
        else
          var n := ExcludedHeight(locs, rx, root, x);
          if n > 0 then WithRules(locs, i, Including(rules, root, x, n)) else locs
      else if locs[i].path == FullPath(x) then
        if confirm then WithoutLocation(locs, locs[i]) else locs
      else
        WithRules(locs, i, Added(rules, ExactRule(Exclude, root, x)))
  }

  // ----- where a location begins -----

  /** `a` is the highest node reached from `x` going up through nodes in the location of `x`. */
  ghost predicate HighestInLocation(locs: seq<Location>, rx: RegexLibrary, root: FileNode, x: Path, a: Path) {
    && a <= x
    && StateAt(locs, rx, root, a).location == StateAt(locs, rx, root, x).location
    && (a != [] ==> StateAt(locs, rx, root, a[..|a| - 1]).location != StateAt(locs, rx, root, x).location)
  }

  lemma HighestIsLocationRoot(locs: seq<Location>, rx: RegexLibrary, root: FileNode, x: Path, a: Path, i: nat)
    requires WellFormed(root) && NodeAt(root, x).Some? && HighestInLocation(locs, rx, root, x, a)
    requires StateAt(locs, rx, root, x).location == Some(i)
    ensures LocationRoot(locs, rx, root, i, a)
  {
    assert a == x[..|a|];
    NodeAtPrefix(root, x, |a|);
  }

  /** Every node of the location is at or below the node where it begins. */
  lemma {:induction false} LocationIsBelow(locs: seq<Location>, rx: RegexLibrary, root: FileNode, i: nat, a: Path, q: Path)
    requires LocationRoot(locs, rx, root, i, a) && NodeAt(root, q).Some?
    requires StateAt(locs, rx, root, q).location == Some(i)
    ensures a <= q
    decreases |q|
  {
    WellFormedAt(root, a);
    WellFormedAt(root, q);
    if q == [] || StateAt(locs, rx, root, q[..|q| - 1]).location.None? {
      FullPathInjective(a, q);
    } else {
      NodeAtPrefix(root, q, |q| - 1);
      LocationIsBelow(locs, rx, root, i, a, q[..|q| - 1]);
    }
  }

  lemma {:induction false} RulesNeedALocation(locs: seq<Location>, rx: RegexLibrary, root: FileNode, x: Path)
    ensures StateAt(locs, rx, root, x).location.None? ==> StateAt(locs, rx, root, x) == Outside
  {
    if StateAt(locs, rx, root, x).location.None? {
      OutsideHasNoRules(locs, rx, root, x);
    }
  }

  // ----- the panel -----

  class BackupLocationsPanel {
    /** The nodes of the tree control. */
    const tree: FileNode
    const rx: RegexLibrary
    var locations: seq<BoxiLocation>
    ghost var locs: seq<Location>
    var states: map<Path, NodeState>

    constructor (tree: FileNode, rx: RegexLibrary)
      ensures this.tree == tree && this.rx == rx && locations == [] && locs == [] && states == map[] && Linked()
    {
      this.tree, this.rx := tree, rx;
      locations, locs, states := [], [], map[];
    }

    ghost function Lists(): set<BoxiExcludeList>
      reads this, locations
    {
      set l | l in locations :: l.excludes
    }

    /** `locs` is what the locations hold; no two of them share a rule list. */
    ghost predicate Linked()
      reads this, locations, Lists()
    {
      && |locs| == |locations|
      && (forall i :: 0 <= i < |locs| ==>
            locs[i] == Location(locations[i].name, locations[i].path, locations[i].excludes.entries))
      && (forall i, j :: 0 <= i < j < |locs| ==> locations[i].excludes != locations[j].excludes)
    }

    /** The state kept for a node is what working everything out from the root would give. */
    ghost predicate Right(p: Path)
      reads this
    {
      p in states && states[p] == StateAt(locs, rx, tree, p)
    }

    ghost predicate AllRight()
      reads this
    {
      forall p :: NodeAt(tree, p).Some? ==> Right(p)
    }

    ghost predicate RightBelow(p: Path)
      reads this
    {
      forall q :: AtOrBelow(p, q) && NodeAt(tree, q).Some? ==> Right(q)
    }

    method FindLocationOf(path: string) returns (r: Option<nat>)
      requires Linked()
      ensures r == FindLocation(locs, path)
    {
      var i := 0;
      while i < |locations|
        invariant 0 <= i <= |locations|
        invariant forall j :: 0 <= j < i ==> locs[j].path != path
      {
        if locations[i].path == path {
          FirstLocation(locs, path, i);
          return Some(i);
        }
        i := i + 1;
      }
      return None;
    }

    method UpdateState(p: Path, isDir: bool)
      requires Linked() && isDir == IsDir(tree, p) && (p != [] ==> Right(p[..|p| - 1]))
      modifies this`states
      ensures Linked() && Right(p)
      ensures forall q :: q != p ==> (q in states <==> q in old(states)) && (q in states ==> states[q] == old(states[q]))
    {
      var path := FullPath(p);
      var s := if p == [] then Outside else states[p[..|p| - 1]];
      if s.location.None? {
        var loc := FindLocationOf(path);
        s := s.(location := loc);
      }
      if s.location.Some? && !(s.excludedBy.Some? && s.includedBy.None?) {
        var l := locations[s.location.value];
        var v := l.GetExcludedState(rx, path, isDir, Verdict(Included, s.excludedBy, s.includedBy, false));
        s := s.(excludedBy := v.excludedBy, includedBy := v.includedBy);
      }
      states := states[p := s];
    }

    /** Refresh a node and then what is below it. */
    method UpdateStateIcon(p: Path, n: FileNode)
      requires Linked() && WellFormed(tree) && NodeAt(tree, p) == Some(n) && (p != [] ==> Right(p[..|p| - 1]))
      modifies this`states
      ensures Linked() && RightBelow(p)
      ensures forall q :: !AtOrBelow(p, q) ==> (q in states <==> q in old(states)) && (q in states ==> states[q] == old(states[q]))
      decreases n
    {
      hide StateAt, FindLocation, Linked, WellFormed, NodeAt;
      UpdateState(p, n.Directory?);
      if n.Directory? {
        for i := 0 to |n.children|
          invariant Linked() && Right(p)
          invariant forall j :: 0 <= j < i ==> RightBelow(p + [n.children[j].name])
          invariant forall q :: !AtOrBelow(p, q) ==> (q in states <==> q in old(states)) && (q in states ==> states[q] == old(states[q]))
        {
          var c := n.children[i];
          NodeAtChild(tree, p, i);
          WellFormedAt(tree, p);
          SiblingsApart(n, p, i);
          UpdateStateIcon(p + [c.name], c);
        }
      }
      forall q | AtOrBelow(p, q) && NodeAt(tree, q).Some?
        ensures Right(q)
      {
        BelowIsUnderAChild(tree, p, n, q);
      }
    }

    // ----- a click -----

    /** Go up from a node while the parent is in the same location. */
    method FindLocationNode(x: Path) returns (a: Path)
      requires WellFormed(tree) && NodeAt(tree, x).Some? && AllRight()
      ensures HighestInLocation(locs, rx, tree, x, a)
    {
      hide StateAt;
      a := x;
      if x != [] { NodeAtPrefix(tree, x, |x| - 1); }
      while a != [] && states[a[..|a| - 1]].location == states[x].location
        invariant a <= x && Right(a) && Right(x) && states[a].location == states[x].location
        invariant a != [] ==> Right(a[..|a| - 1])
      {
        a := a[..|a| - 1];
        assert a == x[..|a|];
        NodeAtPrefix(tree, x, |a|);
        if a != [] {
          assert a[..|a| - 1] == x[..|a| - 1];
          NodeAtPrefix(tree, x, |a| - 1);
        }
      }
    }

    /** Add the rules that include an excluded node. */
    method IncludeNode(list: BoxiExcludeList, x: Path)
      requires WellFormed(tree) && NodeAt(tree, x).Some? && AllRight()
      requires ExcludedHeight(locs, rx, tree, x) > 0
      modifies list
      ensures list.entries == Including(old(list.entries), tree, x, ExcludedHeight(locs, rx, tree, x))
    {
      hide StateAt, Inserted, Added, FullPath, WellFormed;
      ghost var n := ExcludedHeight(locs, rx, tree, x);
      var pos := |list.entries|;
      var p, top := x, x;
      ghost var m := 0;
      assert x[..|x|] == x;
      while p != [] && states[p].excludedBy.Some? && states[p].includedBy.None?
        invariant 0 <= m <= n && p == x[..|x| - m] && Right(p)
        invariant ExcludedHeight(locs, rx, tree, p) == n - m
        invariant m > 0 ==> top == x[..|x| - m + 1]
        invariant InsertIncludes(list.entries, pos, tree, p, n - m) == InsertIncludes(old(list.entries), pos, tree, x, n)
        decreases |p|
      {
        RulesNeedALocation(locs, rx, tree, p);
        top := p;
        list.InsertEntry(pos, ExactRule(AlwaysInclude, tree, p));
        p := p[..|p| - 1];
        m := m + 1;
        NodeAtPrefix(tree, x, |x| - m);
      }
      assert m == n;
      if top != x {
        NodeAtPrefix(tree, x, |top|);
        if IsDir(tree, top) {
          list.InsertEntry(pos, BelowRule(Exclude, ForFile, top));
          list.InsertEntry(pos, BelowRule(Exclude, ForDir, top));
        }
      }
      if IsDir(tree, x) {
        list.AddEntry(BelowRule(AlwaysInclude, ForDir, x));
        list.AddEntry(BelowRule(AlwaysInclude, ForFile, x));
      } else {
        list.AddEntry(ExactRule(AlwaysInclude, tree, x));
      }
    }

    /** Remove the AlwaysInclude rule in force for a node, and the fence that an earlier click may have made below it. */
    method StopIncluding(list: BoxiExcludeList, x: Path, r: Rule)
      modifies list
      ensures list.entries == NoLongerIncluding(old(list.entries), x, r)
    {
      if r.kind.match_ == Exact && r.value == FullPath(x) {
        var files, dirs := BelowRule(Exclude, ForFile, x), BelowRule(Exclude, ForDir, x);
        var hasFiles := list.Contains(files);
        var hasDirs := list.Contains(dirs);
        if hasFiles && hasDirs {
          var _ := list.RemoveEntry(files);
          var _ := list.RemoveEntry(dirs);
        }
      }
      var _ := list.RemoveEntry(r);
    }

    /** Refresh from the node where the location with edited rules begins; that is enough. */
    method RefreshLocation(a: Path, ghost x: Path, ghost i: nat, ghost before: seq<Location>)
      requires Linked() && WellFormed(tree) && NodeAt(tree, x).Some?
      requires HighestInLocation(before, rx, tree, x, a) && StateAt(before, rx, tree, x).location == Some(i)
      requires i < |locs| && locs == WithRules(before, i, locs[i].rules)
      requires forall p :: NodeAt(tree, p).Some? ==> p in states && states[p] == StateAt(before, rx, tree, p)
      modifies this`states
      ensures Linked() && AllRight()
    {
      HighestIsLocationRoot(before, rx, tree, x, a, i);
      hide StateAt, LocationRoot, FindLocation;
      forall q | NodeAt(tree, q).Some? && !AtOrBelow(a, q)
        ensures Right(q)
      {
        ElsewhereKept(before, i, locs[i].rules, rx, tree, a, q);
      }
      LocationRootIsNode(before, rx, tree, i, a);
      UpdateStateIcon(a, NodeAt(tree, a).value);
    }

    /** The rules of location `i` have been edited to `rules`. */
    ghost method NoteRules(i: nat)
      requires i < |locs| == |locations|
      requires forall k :: 0 <= k < |locs| && k != i ==>
                 locs[k] == Location(locations[k].name, locations[k].path, locations[k].excludes.entries)
      requires locs[i].name == locations[i].name && locs[i].path == locations[i].path
      requires forall k, l :: 0 <= k < l < |locs| ==> locations[k].excludes != locations[l].excludes
      modifies this`locs
      ensures Linked()
      ensures locs == WithRules(old(locs), i, locations[i].excludes.entries)
    {
      locs := WithRules(locs, i, locations[i].excludes.entries);
    }

    /** Change the rules of the location of an activated node, and refresh. */
    method EditRules(x: Path, i: nat, ghost stem: string, confirm: bool)
      requires Linked() && WellFormed(tree) && NodeAt(tree, x).Some? && AllRight()
      requires StateAt(locs, rx, tree, x).location == Some(i)
      requires var s := states[x]; s.includedBy.Some? || s.excludedBy.Some? || locs[i].path != FullPath(x)
      modifies this`states, this`locs, Lists()
      ensures Linked() && AllRight()
      ensures locs == Activated(old(locs), rx, tree, x, stem, confirm)
    {
      hide StateAt, WellFormed, Including, Removed, Added, NoLongerIncluding, LocationRoot, FullPath, ExactRule, NodeAt, ExcludedHeight;
      var s := states[x];
      var a := FindLocationNode(x);
      var list := locations[i].excludes;
      ghost var before := locs;
      assert list in Lists();
      if s.includedBy.Some? {
        var r := s.includedBy.value;
        if !(r.kind.match_ == Exact && r.value == FullPath(x)) && !confirm { return; }
        StopIncluding(list, x, r);
      } else if s.excludedBy.Some? {
        var r := s.excludedBy.value;
        if r.kind.match_ == Exact && r.value == FullPath(x) {
          var _ := list.RemoveEntry(r);
        } else {
          ExcludedNodeHasHeight(locs, rx, tree, x);
          IncludeNode(list, x);
        }
      } else {
        list.AddEntry(ExactRule(Exclude, tree, x));
      }
      NoteRules(i);
      RefreshLocation(a, x, i, before);
    }

    /** `stem` is the node's file name without extension; `confirm` answers the question asked, if any. */
    method OnTreeNodeActivate(x: Path, stem: string, confirm: bool)
      requires Linked() && WellFormed(tree) && NodeAt(tree, x).Some? && AllRight()
      modifies this`states, this`locs, this`locations, Lists()
      ensures Linked() && AllRight()
      ensures locs == Activated(old(locs), rx, tree, x, stem, confirm)
      ensures |locations| == |locs| && forall i :: 0 <= i < |locs| ==>
                locs[i] == Location(locations[i].name, locations[i].path, locations[i].excludes.entries)
      ensures forall q :: NodeAt(tree, q).Some? ==> q in states && states[q] == StateAt(locs, rx, tree, q)
    {
      hide StateAt, WellFormed, Including, Removed, Added, NoLongerIncluding, LocationRoot;
      var s := states[x];
      RulesNeedALocation(locs, rx, tree, x);
      if s.location.None? {
        AddLocation(x, stem);
      } else {
        var i := s.location.value;
        if s.includedBy.None? && s.excludedBy.None? && locations[i].path == FullPath(x) {
          if confirm {
            RemoveLocation(i);
          }
        } else {
          EditRules(x, i, stem, confirm);
        }
      }
    }

    method AddLocation(x: Path, stem: string)
      requires Linked() && WellFormed(tree) && NodeAt(tree, x).Some?
      modifies this`states, this`locs, this`locations
      ensures Linked() && AllRight()
      ensures locs == old(locs) + [Location(FreshName.Fresh(Names(old(locs)), stem), FullPath(x), [])]
    {
      var names := [];
      for k := 0 to |locations|
        invariant |names| == k && forall j :: 0 <= j < k ==> names[j] == locs[j].name
      {
        names := names + [locations[k].name];
      }
      assert names == Names(locs);
      var name, _ := FreshName.FindFreshName(names, stem);
      var l := new BoxiLocation(name, FullPath(x));
      locations := locations + [l];
      locs := locs + [Location(name, FullPath(x), [])];
      RefreshAll();
    }

    /** Remove the first location that is the same as location `i`. */
    method RemoveLocation(i: nat)
      requires Linked() && WellFormed(tree) && i < |locs|
      modifies this`states, this`locs, this`locations
      ensures Linked() && AllRight()
      ensures locs == WithoutLocation(old(locs), old(locs[i]))
    {
      hide StateAt, WellFormed, WithoutLocation, AllRight;
      var was := locations[i];
      var k := 0;
      while !(locations[k].name == was.name && locations[k].path == was.path &&
              locations[k].excludes.entries == was.excludes.entries)
        invariant 0 <= k <= i
        invariant forall j :: 0 <= j < k ==> locs[j] != locs[i]
        decreases i - k
      {
        k := k + 1;
      }
      WithoutAt(locs, locs[i], k);
      ghost var kept := locations;
      locations := locations[..k] + locations[k + 1..];
      locs := locs[..k] + locs[k + 1..];
      assert forall j :: 0 <= j < |locations| ==> locations[j] == kept[if j < k then j else j + 1];
      RefreshAll();
    }

    method RefreshAll()
      requires Linked() && WellFormed(tree)
      modifies this`states
      ensures Linked() && AllRight()
    {
      UpdateStateIcon([], tree);
      forall q | NodeAt(tree, q).Some?
        ensures Right(q)
      {
        assert AtOrBelow([], q);
      }
    }
  }

  lemma {:induction false} FirstLocation(locs: seq<Location>, path: string, i: nat)
    requires i < |locs| && locs[i].path == path && forall j :: 0 <= j < i ==> locs[j].path != path
    ensures FindLocation(locs, path) == Some(i)
  {
    if i > 0 {
      FirstLocation(locs[1..], path, i - 1);
    }
  }

  lemma {:induction false} WithoutAt(locs: seq<Location>, l: Location, k: nat)
    requires k < |locs| && locs[k] == l && forall j :: 0 <= j < k ==> locs[j] != l
    ensures WithoutLocation(locs, l) == locs[..k] + locs[k + 1..]
  {
    if k > 0 {
      var rest := locs[1..];
      assert forall j :: 0 <= j < |rest| ==> rest[j] == locs[j + 1];
      WithoutAt(rest, l, k - 1);
      assert [locs[0]] + rest[..k - 1] == locs[..k] && rest[k..] == locs[k + 1..];
      Regroup([locs[0]], rest[..k - 1], rest[k..]);
    }
  }

  lemma ExcludedNodeHasHeight(locs: seq<Location>, rx: RegexLibrary, root: FileNode, x: Path)
    requires StateAt(locs, rx, root, x).excludedBy.Some? && StateAt(locs, rx, root, x).includedBy.None?
    ensures ExcludedHeight(locs, rx, root, x) > 0
  {
    RulesNeedALocation(locs, rx, root, x);
  }

  /** Nodes that are not at or below the place where a location begins do not feel its rules. */
  lemma ElsewhereKept(locs: seq<Location>, i: nat, rules: seq<Rule>, rx: RegexLibrary, root: FileNode, a: Path, q: Path)
    requires LocationRoot(locs, rx, root, i, a) && NodeAt(root, q).Some? && !AtOrBelow(a, q)
    ensures StateAt(WithRules(locs, i, rules), rx, root, q) == StateAt(locs, rx, root, q)
  {
    assert StateAt(locs, rx, root, q).location != Some(i) by {
      if StateAt(locs, rx, root, q).location == Some(i) {
        LocationIsBelow(locs, rx, root, i, a, q);
      }
    }
    OtherNodesKeepTheirState(locs, i, rules, rx, root, q);
  }

  lemma LocationRootIsNode(locs: seq<Location>, rx: RegexLibrary, root: FileNode, i: nat, a: Path)
    requires LocationRoot(locs, rx, root, i, a)
    ensures NodeAt(root, a).Some?
    ensures a != [] ==> NodeAt(root, a[..|a| - 1]).Some? && !AtOrBelow(a, a[..|a| - 1])
  {
    if a != [] { NodeAtPrefix(root, a, |a| - 1); }
  }

  /** What is below one child is not below another. */
  lemma SiblingsApart(n: FileNode, p: Path, i: nat)
    requires WellFormed(n) && n.Directory? && i < |n.children|
    ensures forall j, q :: 0 <= j < i && AtOrBelow(p + [n.children[j].name], q) ==> !AtOrBelow(p + [n.children[i].name], q)
  {
    forall j, q | 0 <= j < i && AtOrBelow(p + [n.children[j].name], q)
      ensures !AtOrBelow(p + [n.children[i].name], q)
    {
      assert q[|p|] == (p + [n.children[j].name])[|p|];
    }
  }

  /** A node at or below `p` is `p` or is at or below one of its children. */
  lemma BelowIsUnderAChild(root: FileNode, p: Path, n: FileNode, q: Path)
    requires NodeAt(root, p) == Some(n) && p <= q && NodeAt(root, q).Some?
    ensures p == q || (n.Directory? && exists j :: 0 <= j < |n.children| && p + [n.children[j].name] <= q)
  {
    if p != q {
      assert q[..|p|] == p && q[..|p| + 1] == p + [q[|p|]];
      NodeAtPrefix(root, q, |p|);
      NodeAtPrefix(root, q, |p| + 1);
      var c := ChildOnTheWay(root, p, q[|p|]);
      var j :| 0 <= j < |n.children| && n.children[j] == c;
    }
  }
}
