/**
 * The state that the backup tree shows for each file and directory (BackupTreeNode::UpdateState),
 * and the scan that counts the files to back up (ProgressPanel::CountLocalFiles).
 */
module BackupTree {
  import opened Common
  import opened LocalPath
  import opened ExcludeRules

  // ----- directories on the local disk -----

  datatype FileNode =
    | PlainFile(name: string, size: nat)
    | Directory(name: string, children: seq<FileNode>)

  function ChildNamed(cs: seq<FileNode>, n: string): (r: Option<FileNode>)
    ensures r.Some? ==> r.value in cs && r.value.name == n
  {
    if cs == [] then None else if cs[0].name == n then Some(cs[0]) else ChildNamed(cs[1..], n)
  }

  function NodeAt(root: FileNode, p: Path): Option<FileNode>
    decreases |p|
  {
    if p == [] then Some(root)
    else if root.PlainFile? then None
    else
      var c := ChildNamed(root.children, p[0]);
      if c.None? then None else NodeAt(c.value, p[1..])
  }

  /** Names are good, and unique in each directory. */
  ghost predicate WellFormed(n: FileNode) {
    n.Directory? ==>
      && (forall i, j :: 0 <= i < j < |n.children| ==> n.children[i].name != n.children[j].name)
      && (forall c :: c in n.children ==> GoodName(c.name) && WellFormed(c))
  }

  lemma {:induction false} ChildAtIndex(cs: seq<FileNode>, i: nat)
    requires i < |cs| && forall a, b :: 0 <= a < b < |cs| ==> cs[a].name != cs[b].name
    ensures ChildNamed(cs, cs[i].name) == Some(cs[i])
  {
    if i > 0 {
      ChildAtIndex(cs[1..], i - 1);
    }
  }

  lemma {:induction false} NodeAtChild(root: FileNode, p: Path, i: nat)
    requires WellFormed(root) && NodeAt(root, p).Some? && NodeAt(root, p).value.Directory?
    requires i < |NodeAt(root, p).value.children|
    ensures var c := NodeAt(root, p).value.children[i];
            NodeAt(root, p + [c.name]) == Some(c) && GoodName(c.name) && WellFormed(c)
    decreases |p|
  {
    var c := NodeAt(root, p).value.children[i];
    if p == [] {
      assert p + [c.name] == [c.name] && (p + [c.name])[1..] == [];
      ChildAtIndex(root.children, i);
      assert c in root.children;
    } else {
      assert (p + [c.name])[0] == p[0] && (p + [c.name])[1..] == p[1..] + [c.name];
      NodeAtChild(ChildNamed(root.children, p[0]).value, p[1..], i);
    }
  }

  lemma {:induction false} WellFormedAt(root: FileNode, p: Path)
    requires WellFormed(root) && NodeAt(root, p).Some?
    ensures WellFormed(NodeAt(root, p).value) && GoodPath(p)
    decreases |p|
  {
    if p != [] {
      var c := ChildNamed(root.children, p[0]).value;
      WellFormedAt(c, p[1..]);
      assert p == [p[0]] + p[1..];
    }
  }

  /** Above a node there is a directory, at every length of its path. */
  lemma {:induction false} NodeAtPrefix(root: FileNode, p: Path, j: nat)
    requires NodeAt(root, p).Some? && j <= |p|
    ensures NodeAt(root, p[..j]).Some?
    ensures j < |p| ==> NodeAt(root, p[..j]).value.Directory?
    decreases |p|
  {
    if j > 0 {
      assert p[..j][0] == p[0] && p[..j][1..] == p[1..][..j - 1];
      NodeAtPrefix(ChildNamed(root.children, p[0]).value, p[1..], j - 1);
    }
  }

  // ----- what the tree shows -----

  datatype Location = Location(name: string, path: string, rules: seq<Rule>)

  /** The location of a node, by its place in the list, and the rules that it is shown to obey. */
  datatype NodeState = NodeState(location: Option<nat>, excludedBy: Option<Rule>, includedBy: Option<Rule>)

  const Outside := NodeState(None, None, None)

  /** The first location in the list with this path. */
  function FindLocation(locs: seq<Location>, path: string): (r: Option<nat>)
    ensures r.Some? ==> r.value < |locs| && locs[r.value].path == path
    ensures r.None? ==> forall i :: 0 <= i < |locs| ==> locs[i].path != path
  {
    if locs == [] then None
    else if locs[0].path == path then Some(0)
    else
      var r := FindLocation(locs[1..], path);
      assert r.None? ==> forall i :: 1 <= i < |locs| ==> locs[i] == locs[1..][i - 1];
      if r.None? then None else Some(r.value + 1)
  }

  /** The state of a node, from that of its parent and the rules. */
  function Updated(locs: seq<Location>, rx: RegexLibrary, parent: NodeState, path: string, isDir: bool): (s: NodeState)
    requires parent.location.Some? ==> parent.location.value < |locs|
    ensures s.location.Some? ==> s.location.value < |locs|
  {
    var loc := if parent.location.Some? then parent.location else FindLocation(locs, path);
    if loc.None? then parent
    else if parent.excludedBy.Some? && parent.includedBy.None? then parent.(location := loc)
    else
      var l := locs[loc.value];
      var v := Judge(l.path, l.rules, rx, path, isDir, Verdict(Included, parent.excludedBy, parent.includedBy, false));
      NodeState(loc, v.excludedBy, v.includedBy)
  }

  function IsDir(root: FileNode, p: Path): bool {
    NodeAt(root, p).Some? && NodeAt(root, p).value.Directory?
  }

  /** The state of a node when all states are worked out from the root of the tree down. */
  function StateAt(locs: seq<Location>, rx: RegexLibrary, root: FileNode, p: Path): (s: NodeState)
    ensures s.location.Some? ==> s.location.value < |locs|
    decreases |p|
  {
    var parent := if p == [] then Outside else StateAt(locs, rx, root, p[..|p| - 1]);
    Updated(locs, rx, parent, FullPath(p), IsDir(root, p))
  }

  predicate ShownExcluded(s: NodeState) {
    s.location.Some? && s.excludedBy.Some? && s.includedBy.None?
  }

  /** `at` is the path of the node that location `i` begins at. */
  ghost predicate LocationRoot(locs: seq<Location>, rx: RegexLibrary, root: FileNode, i: nat, at: Path) {
    && WellFormed(root) && NodeAt(root, at).Some?
    && i < |locs| && locs[i].path == FullPath(at)
    && StateAt(locs, rx, root, at).location == Some(i)
  }

  ghost predicate NameMatch(rules: seq<Rule>, sense: Sense, rx: RegexLibrary, root: FileNode, p: Path) {
    AnyMatch(rules, sense, rx, FullPath(p), IsDir(root, p))
  }

  /** A location begins where no location is inherited, so with no rules inherited either. */
  lemma {:induction false} OutsideHasNoRules(locs: seq<Location>, rx: RegexLibrary, root: FileNode, p: Path)
    requires StateAt(locs, rx, root, p).location.None?
    ensures StateAt(locs, rx, root, p) == Outside
    decreases |p|
  {
    if p != [] {
      OutsideHasNoRules(locs, rx, root, p[..|p| - 1]);
    }
  }

  lemma {:induction false} LocationRootState(locs: seq<Location>, rx: RegexLibrary, root: FileNode, i: nat, at: Path)
    requires LocationRoot(locs, rx, root, i, at)
    ensures StateAt(locs, rx, root, at) == NodeState(Some(i), None, None)
    ensures at != [] ==> StateAt(locs, rx, root, at[..|at| - 1]) == Outside
  {
    if at != [] {
      var parent := at[..|at| - 1];
      if StateAt(locs, rx, root, parent).location.Some? {
        WellFormedAt(root, at);
        LocationComesFromAbove(locs, rx, root, i, parent, at);
      } else {
        OutsideHasNoRules(locs, rx, root, parent);
      }
    }
  }

  /** A node whose parent is in a location is below the place with that location's path. */
  lemma {:induction false} LocationComesFromAbove(locs: seq<Location>, rx: RegexLibrary, root: FileNode, i: nat, parent: Path, p: Path)
    requires StateAt(locs, rx, root, parent).location == Some(i)
    requires parent < p && GoodPath(p)
    ensures locs[i].path != FullPath(p)
    decreases |parent|
  {
    if parent == [] || StateAt(locs, rx, root, parent[..|parent| - 1]).location.None? {
      assert locs[i].path == FullPath(parent);
      FullPathInjective(parent, p);
    } else {
      LocationComesFromAbove(locs, rx, root, i, parent[..|parent| - 1], p);
    }
  }

  /** Everything below the beginning of a location is in that location. */
  lemma {:induction false} LocationInherited(locs: seq<Location>, rx: RegexLibrary, root: FileNode, i: nat, at: Path, p: Path)
    requires LocationRoot(locs, rx, root, i, at) && at <= p
    ensures StateAt(locs, rx, root, p).location == Some(i)
    decreases |p|
  {
    if at != p {
      assert at <= p[..|p| - 1];
      LocationInherited(locs, rx, root, i, at, p[..|p| - 1]);
    }
  }

  /**
   * Inside a location a node is shown as excluded exactly when its parent is, or when a rule
   * excludes it and none always includes it.
   */
  lemma {:induction false} ShownExcludedStep(locs: seq<Location>, rx: RegexLibrary, root: FileNode, i: nat, at: Path, p: Path)
    requires LocationRoot(locs, rx, root, i, at) && at < p && GoodPath(p)
    ensures var parent := StateAt(locs, rx, root, p[..|p| - 1]);
            ShownExcluded(StateAt(locs, rx, root, p)) <==>
              || ShownExcluded(parent)
              || (NameMatch(locs[i].rules, Exclude, rx, root, p) && !NameMatch(locs[i].rules, AlwaysInclude, rx, root, p))
  {
    var parent := p[..|p| - 1];
    assert at <= parent;
    LocationInherited(locs, rx, root, i, at, parent);
    FullPathInjective(p, []);
    assert GoodPath(at) by { WellFormedAt(root, at); }
    FullPathInjective(p, at);
    FirstMatchIsAnyMatch(locs[i].rules, Exclude, rx, FullPath(p), IsDir(root, p));
    FirstMatchIsAnyMatch(locs[i].rules, AlwaysInclude, rx, FullPath(p), IsDir(root, p));
  }

  /** What is below an excluded node is excluded. */
  lemma {:induction false} ExcludedBelow(locs: seq<Location>, rx: RegexLibrary, root: FileNode, i: nat, at: Path, p: Path, q: Path)
    requires LocationRoot(locs, rx, root, i, at) && at < p <= q && GoodPath(q)
    requires ShownExcluded(StateAt(locs, rx, root, p))
    ensures ShownExcluded(StateAt(locs, rx, root, q))
    decreases |q|
  {
    if p != q {
      assert p <= q[..|q| - 1];
      ExcludedBelow(locs, rx, root, i, at, p, q[..|q| - 1]);
      ShownExcludedStep(locs, rx, root, i, at, q);
    }
  }

  /** A rule excludes some node on the way from `at` down to `q`, and none always includes that node. */
  ghost predicate ExcludedOnTheWay(rules: seq<Rule>, rx: RegexLibrary, root: FileNode, at: Path, q: Path) {
    exists k :: |at| < k <= |q| && ExcludedByName(rules, rx, root, q[..k])
  }

  ghost predicate ExcludedByName(rules: seq<Rule>, rx: RegexLibrary, root: FileNode, p: Path) {
    NameMatch(rules, Exclude, rx, root, p) && !NameMatch(rules, AlwaysInclude, rx, root, p)
  }

  /** What the tree shows for a node of a location, without reference to the states kept for other nodes. */
  lemma {:induction false} ShownExcludedExactly(locs: seq<Location>, rx: RegexLibrary, root: FileNode, i: nat, at: Path, q: Path)
    requires LocationRoot(locs, rx, root, i, at) && at <= q && GoodPath(q)
    ensures ShownExcluded(StateAt(locs, rx, root, q)) <==> ExcludedOnTheWay(locs[i].rules, rx, root, at, q)
    decreases |q|
  {
    hide StateAt, ShownExcluded, ExcludedByName, FullPath;
    if at == q {
      LocationRootState(locs, rx, root, i, at);
      NoRuleInForce(StateAt(locs, rx, root, q));
    } else {
      var up := q[..|q| - 1];
      assert at <= up;
      ShownExcludedExactly(locs, rx, root, i, at, up);
      ShownExcludedStep(locs, rx, root, i, at, q);
      OnTheWayStep(locs[i].rules, rx, root, at, q);
      ByName(locs[i].rules, rx, root, q);
    }
  }

  lemma NoRuleInForce(s: NodeState)
    requires s.excludedBy.None?
    ensures !ShownExcluded(s)
  {
  }

  lemma ByName(rules: seq<Rule>, rx: RegexLibrary, root: FileNode, p: Path)
    ensures ExcludedByName(rules, rx, root, p) <==>
            NameMatch(rules, Exclude, rx, root, p) && !NameMatch(rules, AlwaysInclude, rx, root, p)
  {
  }

  /** The same, by what is kept for the node and by the rules. */
  lemma KeptExcludedExactly(locs: seq<Location>, rx: RegexLibrary, root: FileNode, i: nat, at: Path, q: Path)
    requires LocationRoot(locs, rx, root, i, at) && at <= q && GoodPath(q)
    ensures var s, rules := StateAt(locs, rx, root, q), locs[i].rules;
            s.excludedBy.Some? && s.includedBy.None? <==>
            exists k :: |at| < k <= |q| &&
              AnyMatch(rules, Exclude, rx, FullPath(q[..k]), IsDir(root, q[..k])) &&
              !AnyMatch(rules, AlwaysInclude, rx, FullPath(q[..k]), IsDir(root, q[..k]))
  {
    ShownExcludedExactly(locs, rx, root, i, at, q);
    LocationInherited(locs, rx, root, i, at, q);
    hide StateAt, AnyMatch, FullPath, IsDir;
    var rules := locs[i].rules;
    if ExcludedOnTheWay(rules, rx, root, at, q) {
      var k :| |at| < k <= |q| && ExcludedByName(rules, rx, root, q[..k]);
      assert AnyMatch(rules, Exclude, rx, FullPath(q[..k]), IsDir(root, q[..k]));
    }
    if k :| |at| < k <= |q| && AnyMatch(rules, Exclude, rx, FullPath(q[..k]), IsDir(root, q[..k])) &&
            !AnyMatch(rules, AlwaysInclude, rx, FullPath(q[..k]), IsDir(root, q[..k])) {
      assert ExcludedByName(rules, rx, root, q[..k]);
    }
  }

  lemma OnTheWayStep(rules: seq<Rule>, rx: RegexLibrary, root: FileNode, at: Path, q: Path)
    requires at < q
    ensures ExcludedOnTheWay(rules, rx, root, at, q) <==>
            ExcludedOnTheWay(rules, rx, root, at, q[..|q| - 1]) || ExcludedByName(rules, rx, root, q)
  {
    hide ExcludedByName;
    var up := q[..|q| - 1];
    assert q[..|q|] == q;
    forall k | 0 <= k <= |up| ensures up[..k] == q[..k] {}
    if ExcludedOnTheWay(rules, rx, root, at, up) {
      var k :| |at| < k <= |up| && ExcludedByName(rules, rx, root, up[..k]);
      assert ExcludedByName(rules, rx, root, q[..k]);
    }
    if ExcludedOnTheWay(rules, rx, root, at, q) {
      var k :| |at| < k <= |q| && ExcludedByName(rules, rx, root, q[..k]);
      if k < |q| { assert ExcludedByName(rules, rx, root, up[..k]); }
    }
  }

  /**
   * Below a node that is not excluded, the rule kept as excluding a node is the first that matches,
   * unless nothing excludes it, something always includes it, and its parent keeps a rule.
   */
  lemma ExcludedByIsFirstMatch(locs: seq<Location>, rx: RegexLibrary, root: FileNode, i: nat, at: Path, p: Path)
    requires LocationRoot(locs, rx, root, i, at) && at < p && GoodPath(p)
    requires !ShownExcluded(StateAt(locs, rx, root, p[..|p| - 1]))
    ensures StateAt(locs, rx, root, p).excludedBy == FirstMatch(locs[i].rules, Exclude, rx, FullPath(p), IsDir(root, p)) <==>
            || NameMatch(locs[i].rules, Exclude, rx, root, p)
            || !NameMatch(locs[i].rules, AlwaysInclude, rx, root, p)
            || StateAt(locs, rx, root, p[..|p| - 1]).excludedBy == None
  {
    var parent := StateAt(locs, rx, root, p[..|p| - 1]);
    assert at <= p[..|p| - 1];
    LocationInherited(locs, rx, root, i, at, p[..|p| - 1]);
    WellFormedAt(root, at);
    FullPathInjective(p, []);
    FullPathInjective(p, at);
    PointersAreFirstMatches(locs[i].path, locs[i].rules, rx, FullPath(p), IsDir(root, p),
                            Verdict(Included, parent.excludedBy, parent.includedBy, false));
  }

  /**
   * What is kept for a node below the beginning of its location: all of its parent's state if that is
   * excluded; otherwise the first rule of each sense that matches it, but where only an including one does, what
   * the parent keeps as excluding it.
   */
  lemma RulesInForce(locs: seq<Location>, rx: RegexLibrary, root: FileNode, i: nat, at: Path, p: Path)
    requires LocationRoot(locs, rx, root, i, at) && at < p && GoodPath(p)
    ensures var s, parent := StateAt(locs, rx, root, p), StateAt(locs, rx, root, p[..|p| - 1]);
            var excluding, including := FirstMatch(locs[i].rules, Exclude, rx, FullPath(p), IsDir(root, p)),
                                        FirstMatch(locs[i].rules, AlwaysInclude, rx, FullPath(p), IsDir(root, p));
            && s.location == parent.location == Some(i)
            && (parent.excludedBy.Some? && parent.includedBy.None? ==> s == parent)
            && (parent.excludedBy.None? || parent.includedBy.Some? ==>
                  s.includedBy == including && s.excludedBy == if excluding.None? && including.Some? then parent.excludedBy else excluding)
  {
    assert at <= p[..|p| - 1];
    LocationInherited(locs, rx, root, i, at, p[..|p| - 1]);
    WellFormedAt(root, at);
    FullPathInjective(p, []);
    FullPathInjective(p, at);
  }

  function StaleRules(root: FileNode, p: Path): seq<Rule>
    requires |p| == 2
  {
    [Rule(RuleType(Exclude, ForDir, Exact), FullPath(p[..1])),
     Rule(RuleType(AlwaysInclude, ForDir, Exact), FullPath(p[..1])),
     Rule(RuleType(AlwaysInclude, if IsDir(root, p) then ForDir else ForFile, Exact), FullPath(p))]
  }

  /**
   * A directory that a rule excludes and another always includes, with an entry that is always
   * included: the entry is left naming the rule for the directory, which does not match it.
   */
  lemma StalePointerExample(rx: RegexLibrary, root: FileNode, p: Path)
    requires WellFormed(root) && NodeAt(root, p).Some? && |p| == 2
    ensures var rules := StaleRules(root, p);
            var s := StateAt([Location("root", "/", rules)], rx, root, p);
            && s.excludedBy == Some(rules[0]) && !Applies(rules[0], Exclude, rx, FullPath(p), IsDir(root, p))
            && !NameMatch(rules, Exclude, rx, root, p)
  {
    hide FullPath, IsDir, FirstMatch;
    var rules, top := StaleRules(root, p), p[..1];
    var locs := [Location("root", "/", rules)];
    WellFormedAt(root, p);
    NodeAtPrefix(root, p, 1);
    DirAt(root, top);
    FullPathInjective(p, top);
    FullPathInjective(p, []);
    FullPathInjective(top, []);
    RootPath();
    assert top[..0] == [];
    assert StateAt(locs, rx, root, []) == NodeState(Some(0), None, None);
    FirstOfThree(rules, Exclude, rx, FullPath(top), true);
    FirstOfThree(rules, AlwaysInclude, rx, FullPath(top), true);
    assert StateAt(locs, rx, root, top) == NodeState(Some(0), Some(rules[0]), Some(rules[1]));
    FirstOfThree(rules, Exclude, rx, FullPath(p), IsDir(root, p));
    FirstOfThree(rules, AlwaysInclude, rx, FullPath(p), IsDir(root, p));
  }

  lemma FirstOfThree(rules: seq<Rule>, sense: Sense, rx: RegexLibrary, file: string, isDir: bool)
    requires |rules| == 3
    ensures FirstMatch(rules, sense, rx, file, isDir) ==
            if Applies(rules[0], sense, rx, file, isDir) then Some(rules[0])
            else if Applies(rules[1], sense, rx, file, isDir) then Some(rules[1])
            else if Applies(rules[2], sense, rx, file, isDir) then Some(rules[2])
            else None
  {
    hide Applies;
    var two := rules[1..];
    var one := two[1..];
    assert one[1..] == [] && one[0] == rules[2] && two[0] == rules[1];
    assert FirstMatch(one, sense, rx, file, isDir) == if Applies(rules[2], sense, rx, file, isDir) then Some(rules[2]) else None;
  }

  lemma DirAt(root: FileNode, p: Path)
    requires NodeAt(root, p).Some? && NodeAt(root, p).value.Directory?
    ensures IsDir(root, p)
  {
  }

  lemma RootPath()
    ensures FullPath([]) == "/"
  {
  }

  // ----- the scan -----

  /** The files below a directory, in the order in which its entries are read. */
  function FilesBelow(n: FileNode, p: Path): seq<Path>
    decreases n, 0
  {
    if n.PlainFile? then [p] else FilesIn(n.children, p)
  }

  function FilesIn(cs: seq<FileNode>, p: Path): seq<Path>
    decreases cs, 1
  {
    if cs == [] then [] else FilesBelow(cs[0], p + [cs[0].name]) + FilesIn(cs[1..], p)
  }

  /** `files` without those that the tree shows as excluded. */
  function NotExcluded(locs: seq<Location>, rx: RegexLibrary, root: FileNode, files: seq<Path>): seq<Path> {
    if files == [] then []
    else
      (if ShownExcluded(StateAt(locs, rx, root, files[0])) then [] else [files[0]]) +
      NotExcluded(locs, rx, root, files[1..])
  }

  /** The two exclude lists, for files and for directories, that the scan asks. */
  datatype Oracle = Oracle(files: BoxList, dirs: BoxList)

  predicate Refuses(o: Oracle, rx: RegexLibrary, file: string, isDir: bool) {
    BoxExcludes(if isDir then o.dirs else o.files, rx, file)
  }

  /** The files that the scan of a directory counts; `dir` is the path string it goes by. */
  function Counted(o: Oracle, rx: RegexLibrary, cs: seq<FileNode>, dir: string, p: Path): seq<Path>
    decreases cs
  {
    if cs == [] then [] else
      var c, file := cs[0], dir + "/" + cs[0].name;
      (if Refuses(o, rx, file, c.Directory?) then []
       else if c.PlainFile? then [p + [c.name]]
       else Counted(o, rx, c.children, file, p + [c.name])) +
      Counted(o, rx, cs[1..], dir, p)
  }

  ghost predicate OracleFor(o: Oracle, l: Location, rx: RegexLibrary) {
    BoxListOf(l.rules, rx, false) == Some(o.files) && BoxListOf(l.rules, rx, true) == Some(o.dirs)
  }

  lemma {:induction false} NotExcludedAppend(locs: seq<Location>, rx: RegexLibrary, root: FileNode, a: seq<Path>, b: seq<Path>)
    ensures NotExcluded(locs, rx, root, a + b) == NotExcluded(locs, rx, root, a) + NotExcluded(locs, rx, root, b)
  {
    hide StateAt;
    if a == [] {
      assert a + b == b;
    } else {
      assert (a + b)[0] == a[0] && (a + b)[1..] == a[1..] + b;
      NotExcludedAppend(locs, rx, root, a[1..], b);
    }
  }

  /** The node `n` is at `p` inside the location that begins at `at`. */
  ghost predicate Inside(locs: seq<Location>, rx: RegexLibrary, root: FileNode, i: nat, at: Path, p: Path, n: FileNode) {
    LocationRoot(locs, rx, root, i, at) && at != [] && at <= p && NodeAt(root, p) == Some(n)
  }

  lemma {:induction false} NothingBelowExcluded(locs: seq<Location>, rx: RegexLibrary, root: FileNode, i: nat, at: Path, p: Path, n: FileNode)
    requires Inside(locs, rx, root, i, at, p, n) && at < p
    requires ShownExcluded(StateAt(locs, rx, root, p))
    ensures NotExcluded(locs, rx, root, FilesBelow(n, p)) == []
    decreases n, 1
  {
    if n.PlainFile? {
      assert FilesBelow(n, p)[1..] == [];
    } else {
      NothingInExcluded(locs, rx, root, i, at, p, n, 0);
      assert n.children[0..] == n.children;
    }
  }

  lemma {:induction false} NothingInExcluded(locs: seq<Location>, rx: RegexLibrary, root: FileNode, i: nat, at: Path, p: Path, n: FileNode, k: nat)
    requires Inside(locs, rx, root, i, at, p, n) && at < p && n.Directory? && k <= |n.children|
    requires ShownExcluded(StateAt(locs, rx, root, p))
    ensures NotExcluded(locs, rx, root, FilesIn(n.children[k..], p)) == []
    decreases n, 0, |n.children| - k
  {
    if k < |n.children| {
      var c := n.children[k];
      var q := p + [c.name];
      NodeAtChild(root, p, k);
      WellFormedAt(root, q);
      ExcludedBelow(locs, rx, root, i, at, p, q);
      NothingBelowExcluded(locs, rx, root, i, at, q, c);
      NothingInExcluded(locs, rx, root, i, at, p, n, k + 1);
      assert n.children[k..][1..] == n.children[k + 1..];
      NotExcludedAppend(locs, rx, root, FilesBelow(c, q), FilesIn(n.children[k + 1..], p));
    }
  }

  /** Inside a node that is not excluded, the scan refuses an entry exactly when the tree shows it as excluded. */
  lemma RefusesWhatIsExcluded(locs: seq<Location>, rx: RegexLibrary, root: FileNode, i: nat, at: Path, p: Path, n: FileNode, k: nat, o: Oracle)
    requires Inside(locs, rx, root, i, at, p, n) && n.Directory? && k < |n.children|
    requires OracleFor(o, locs[i], rx) && !ShownExcluded(StateAt(locs, rx, root, p))
    ensures var c := n.children[k];
            && FullPath(p) + "/" + c.name == FullPath(p + [c.name])
            && (Refuses(o, rx, FullPath(p) + "/" + c.name, c.Directory?) <==> ShownExcluded(StateAt(locs, rx, root, p + [c.name])))
  {
    var c := n.children[k];
    var q := p + [c.name];
    NodeAtChild(root, p, k);
    WellFormedAt(root, q);
    FullPathOfChild(p, c.name);
    assert q[..|q| - 1] == p;
    ShownExcludedStep(locs, rx, root, i, at, q);
    BoxListMatches(locs[i].rules, rx, c.Directory?, FullPath(q));
  }

  lemma {:induction false} ScanOfChildren(locs: seq<Location>, rx: RegexLibrary, root: FileNode, i: nat, at: Path, p: Path, n: FileNode, k: nat, o: Oracle)
    requires Inside(locs, rx, root, i, at, p, n) && n.Directory? && k <= |n.children|
    requires OracleFor(o, locs[i], rx) && !ShownExcluded(StateAt(locs, rx, root, p))
    ensures Counted(o, rx, n.children[k..], FullPath(p), p) == NotExcluded(locs, rx, root, FilesIn(n.children[k..], p))
    decreases n, |n.children| - k
  {
    hide StateAt, ShownExcluded, Refuses, BoxListOf, FullPath, WellFormed;
    if k < |n.children| {
      var cs, c := n.children[k..], n.children[k];
      var q := p + [c.name];
      assert cs[1..] == n.children[k + 1..];
      NodeAtChild(root, p, k);
      RefusesWhatIsExcluded(locs, rx, root, i, at, p, n, k, o);
      ScanOfChildren(locs, rx, root, i, at, p, n, k + 1, o);
      NotExcludedAppend(locs, rx, root, FilesBelow(c, q), FilesIn(cs[1..], p));
      if ShownExcluded(StateAt(locs, rx, root, q)) {
        NothingBelowExcluded(locs, rx, root, i, at, q, c);
      } else if c.Directory? {
        ScanOfChildren(locs, rx, root, i, at, q, c, 0, o);
        assert c.children[0..] == c.children;
      } else {
        assert FilesBelow(c, q) == [q] && [q][1..] == [];
      }
    }
  }

  lemma {:induction false} ScanOfLocationRoot(locs: seq<Location>, rx: RegexLibrary, root: FileNode, i: nat, at: Path, o: Oracle)
    requires LocationRoot(locs, rx, root, i, at) && at != [] && IsDir(root, at)
    requires OracleFor(o, locs[i], rx)
    ensures Counted(o, rx, NodeAt(root, at).value.children, locs[i].path, at) ==
            NotExcluded(locs, rx, root, FilesBelow(NodeAt(root, at).value, at))
  {
    var n := NodeAt(root, at).value;
    LocationRootState(locs, rx, root, i, at);
    ScanOfChildren(locs, rx, root, i, at, at, n, 0, o);
    assert n.children[0..] == n.children;
  }

  // ----- locations inside other locations -----

  /** Location `i` is at `at`, no earlier one is there too, and none is at a directory above. */
  ghost predicate Standing(locs: seq<Location>, i: nat, at: Path) {
    && i < |locs| && locs[i].path == FullPath(at)
    && (forall j :: 0 <= j < i ==> locs[j].path != FullPath(at))
    && NoneAbove(locs, at)
  }

  ghost predicate NoneAbove(locs: seq<Location>, p: Path) {
    forall j, k :: 0 <= j < |locs| && 0 <= k < |p| ==> locs[j].path != FullPath(p[..k])
  }

  lemma {:induction false} OutsideAllLocations(locs: seq<Location>, rx: RegexLibrary, root: FileNode, p: Path)
    ensures StateAt(locs, rx, root, p).location.None? <==>
            NoneAbove(locs, p) && forall j :: 0 <= j < |locs| ==> locs[j].path != FullPath(p)
    decreases |p|
  {
    if p != [] {
      var up := p[..|p| - 1];
      OutsideAllLocations(locs, rx, root, up);
      assert forall k :: 0 <= k < |up| ==> up[..k] == p[..k];
    }
  }

  /** Where a location stands, the nodes of the tree are in it; where it does not, they are in another. */
  lemma StandingIsRoot(locs: seq<Location>, rx: RegexLibrary, root: FileNode, i: nat, at: Path)
    requires WellFormed(root) && NodeAt(root, at).Some? && i < |locs| && locs[i].path == FullPath(at)
    ensures LocationRoot(locs, rx, root, i, at) <==> Standing(locs, i, at)
    ensures StateAt(locs, rx, root, at).location.Some?
  {
    hide StateAt, NoneAbove;
    OutsideAllLocations(locs, rx, root, at);
    LocationAtOrAbove(locs, rx, root, at);
    WellFormedAt(root, at);
    if at != [] {
      var up := at[..|at| - 1];
      OutsideAllLocations(locs, rx, root, up);
      NoneAboveParent(locs, at);
      if StateAt(locs, rx, root, up).location.Some? {
        LocationComesFromAbove(locs, rx, root, StateAt(locs, rx, root, up).location.value, up, at);
      }
    } else {
      NothingIsAboveRoot(locs);
    }
    FirstIsFirst(locs, FullPath(at));
  }

  lemma LocationAtOrAbove(locs: seq<Location>, rx: RegexLibrary, root: FileNode, p: Path)
    ensures var s := StateAt(locs, rx, root, p);
            if p != [] && StateAt(locs, rx, root, p[..|p| - 1]).location.Some?
            then s.location == StateAt(locs, rx, root, p[..|p| - 1]).location
            else s.location == FindLocation(locs, FullPath(p))
  {
  }

  lemma NothingIsAboveRoot(locs: seq<Location>)
    ensures NoneAbove(locs, [])
  {
  }

  lemma NoneAboveParent(locs: seq<Location>, p: Path)
    requires p != []
    ensures NoneAbove(locs, p) <==>
            NoneAbove(locs, p[..|p| - 1]) && forall j :: 0 <= j < |locs| ==> locs[j].path != FullPath(p[..|p| - 1])
  {
    var up := p[..|p| - 1];
    assert forall k :: 0 <= k < |up| ==> up[..k] == p[..k];
  }

  lemma {:induction false} FirstIsFirst(locs: seq<Location>, path: string)
    ensures var r := FindLocation(locs, path); r.Some? ==> forall j :: 0 <= j < r.value ==> locs[j].path != path
  {
    if locs != [] && locs[0].path != path {
      FirstIsFirst(locs[1..], path);
      assert forall j :: 1 <= j < |locs| ==> locs[j] == locs[1..][j - 1];
    }
  }

  lemma AloneStands(l: Location, at: Path)
    requires l.path == FullPath(at) && GoodPath(at)
    ensures Standing([l], 0, at)
  {
    forall k | 0 <= k < |at|
      ensures FullPath(at[..k]) != FullPath(at)
    {
      FullPathInjective(at[..k], at);
    }
  }

  /**
   * The scan of a location counts exactly the files below it that the tree would show as not
   * excluded if there were no other location, in the order in which they are read.
   */
  lemma ScanCountsAsIfAlone(l: Location, rx: RegexLibrary, root: FileNode, at: Path, o: Oracle)
    requires WellFormed(root) && IsDir(root, at) && l.path == FullPath(at) && at != [] && OracleFor(o, l, rx)
    ensures Counted(o, rx, NodeAt(root, at).value.children, l.path, at) ==
            NotExcluded([l], rx, root, FilesBelow(NodeAt(root, at).value, at))
  {
    WellFormedAt(root, at);
    AloneStands(l, at);
    StandingIsRoot([l], rx, root, 0, at);
    ScanOfLocationRoot([l], rx, root, 0, at, o);
  }

  /** The scan of a standing location counts exactly the files below it that the tree shows as not excluded. */
  lemma ScanCountsWhatIsShown(locs: seq<Location>, rx: RegexLibrary, root: FileNode, i: nat, at: Path, o: Oracle)
    requires WellFormed(root) && IsDir(root, at) && Standing(locs, i, at) && at != [] && OracleFor(o, locs[i], rx)
    ensures Counted(o, rx, NodeAt(root, at).value.children, locs[i].path, at) ==
            NotExcluded(locs, rx, root, FilesBelow(NodeAt(root, at).value, at))
  {
    StandingIsRoot(locs, rx, root, i, at);
    ScanOfLocationRoot(locs, rx, root, i, at, o);
  }

  // ----- exactly where the scan and the tree agree -----

  function WithAllRules(locs: seq<Location>, rules: seq<seq<Rule>>): (r: seq<Location>)
    requires |rules| == |locs|
    ensures |r| == |locs| && forall i :: 0 <= i < |locs| ==> r[i] == locs[i].(rules := rules[i])
  {
    if locs == [] then [] else [locs[0].(rules := rules[0])] + WithAllRules(locs[1..], rules[1..])
  }

  ghost predicate ScanAgrees(locs: seq<Location>, rx: RegexLibrary, root: FileNode, i: nat, at: Path)
    requires i < |locs| && IsDir(root, at)
  {
    forall o :: OracleFor(o, locs[i], rx) ==>
      Counted(o, rx, NodeAt(root, at).value.children, locs[i].path, at) ==
      NotExcluded(locs, rx, root, FilesBelow(NodeAt(root, at).value, at))
  }

  ghost predicate ScanAgreesForAllRules(locs: seq<Location>, rx: RegexLibrary, root: FileNode, i: nat, at: Path)
    requires i < |locs| && IsDir(root, at)
  {
    forall rules: seq<seq<Rule>> :: |rules| == |locs| ==> ScanAgrees(WithAllRules(locs, rules), rx, root, i, at)
  }

  lemma {:induction false} NotExcludedMembers(locs: seq<Location>, rx: RegexLibrary, root: FileNode, files: seq<Path>, q: Path)
    ensures q in NotExcluded(locs, rx, root, files) <==> q in files && !ShownExcluded(StateAt(locs, rx, root, q))
  {
    hide StateAt, ShownExcluded;
    if files != [] {
      NotExcludedMembers(locs, rx, root, files[1..], q);
      assert files == [files[0]] + files[1..];
    }
  }

  lemma {:induction false} NoFilesNoneCounted(o: Oracle, rx: RegexLibrary, cs: seq<FileNode>, dir: string, p: Path)
    requires FilesIn(cs, p) == []
    ensures Counted(o, rx, cs, dir, p) == []
    decreases cs
  {
    if cs != [] {
      var c := cs[0];
      assert FilesBelow(c, p + [c.name]) == [];
      if c.Directory? { NoFilesNoneCounted(o, rx, c.children, dir + "/" + c.name, p + [c.name]); }
      NoFilesNoneCounted(o, rx, cs[1..], dir, p);
    }
  }

  /** The files below a directory are files of the tree. */
  lemma {:induction false} FilesBelowAreFiles(root: FileNode, p: Path, n: FileNode, q: Path)
    requires WellFormed(root) && NodeAt(root, p) == Some(n) && q in FilesBelow(n, p)
    ensures p <= q && NodeAt(root, q).Some? && NodeAt(root, q).value.PlainFile?
    decreases n, 1
  {
    if n.Directory? {
      FilesInAreFiles(root, p, n, 0, q);
      assert n.children[0..] == n.children;
    }
  }

  lemma {:induction false} FilesInAreFiles(root: FileNode, p: Path, n: FileNode, k: nat, q: Path)
    requires WellFormed(root) && NodeAt(root, p) == Some(n) && n.Directory? && k <= |n.children|
    requires q in FilesIn(n.children[k..], p)
    ensures p < q && NodeAt(root, q).Some? && NodeAt(root, q).value.PlainFile?
    decreases n, 0, |n.children| - k
  {
    var c := n.children[k];
    assert n.children[k..][1..] == n.children[k + 1..];
    NodeAtChild(root, p, k);
    if q in FilesBelow(c, p + [c.name]) {
      FilesBelowAreFiles(root, p + [c.name], c, q);
      assert p < p + [c.name] <= q;
    } else {
      FilesInAreFiles(root, p, n, k + 1, q);
    }
  }

  /** And every file of the tree below it is one of them. */
  lemma {:induction false} FilesBelowHasAll(root: FileNode, p: Path, n: FileNode, q: Path)
    requires NodeAt(root, p) == Some(n) && p <= q && NodeAt(root, q).Some? && NodeAt(root, q).value.PlainFile?
    ensures q in FilesBelow(n, p)
    decreases |q| - |p|
  {
    if p == q {
      assert FilesBelow(n, p) == [p];
    } else {
      var up := p + [q[|p|]];
      assert q[..|p|] == p && q[..|p| + 1] == up;
      NodeAtPrefix(root, q, |p|);
      NodeAtPrefix(root, q, |p| + 1);
      var c := ChildOnTheWay(root, p, q[|p|]);
      FilesBelowHasAll(root, up, c, q);
      FilesInHasChild(n.children, p, c, q);
    }
  }

  lemma {:induction false} ChildOnTheWay(root: FileNode, p: Path, name: string) returns (c: FileNode)
    requires NodeAt(root, p).Some? && NodeAt(root, p).value.Directory? && NodeAt(root, p + [name]).Some?
    ensures c in NodeAt(root, p).value.children && c.name == name && NodeAt(root, p + [name]) == Some(c)
    decreases |p|
  {
    if p == [] {
      assert (p + [name])[0] == name && (p + [name])[1..] == [];
      c := ChildNamed(root.children, name).value;
    } else {
      assert (p + [name])[0] == p[0] && (p + [name])[1..] == p[1..] + [name];
      c := ChildOnTheWay(ChildNamed(root.children, p[0]).value, p[1..], name);
    }
  }

  lemma {:induction false} FilesBelowUnder(n: FileNode, p: Path, q: Path)
    ensures q in FilesBelow(n, p) ==> p <= q
    decreases n, 1
  {
    if n.Directory? { FilesInUnder(n.children, p, q); }
  }

  lemma {:induction false} FilesInUnder(cs: seq<FileNode>, p: Path, q: Path)
    ensures q in FilesIn(cs, p) ==> p < q && exists j :: 0 <= j < |cs| && cs[j].name == q[|p|]
    decreases cs, 0
  {
    if cs != [] {
      var up := p + [cs[0].name];
      FilesBelowUnder(cs[0], up, q);
      FilesInUnder(cs[1..], p, q);
      if up <= q {
        assert q[..|p|] == up[..|p|] == p && q[|p|] == up[|p|];
      }
    }
  }

  /** Each file below a directory is in the list, once, and nothing else is. */
  lemma {:induction false} FilesBelowExactly(root: FileNode, p: Path, n: FileNode, q: Path)
    requires WellFormed(root) && NodeAt(root, p) == Some(n)
    ensures multiset(FilesBelow(n, p))[q] == if p <= q && NodeAt(root, q).Some? && NodeAt(root, q).value.PlainFile? then 1 else 0
  {
    WellFormedAt(root, p);
    FilesBelowOnce(n, p, q);
    if q in FilesBelow(n, p) {
      FilesBelowAreFiles(root, p, n, q);
    } else if p <= q && NodeAt(root, q).Some? && NodeAt(root, q).value.PlainFile? {
      FilesBelowHasAll(root, p, n, q);
    }
  }

  lemma {:induction false} FilesBelowOnce(n: FileNode, p: Path, q: Path)
    requires WellFormed(n)
    ensures multiset(FilesBelow(n, p))[q] <= 1
    decreases n, 1
  {
    if n.Directory? { FilesInOnce(n.children, p, q); }
  }

  lemma {:induction false} FilesInOnce(cs: seq<FileNode>, p: Path, q: Path)
    requires forall i, j :: 0 <= i < j < |cs| ==> cs[i].name != cs[j].name
    requires forall c :: c in cs ==> WellFormed(c)
    ensures multiset(FilesIn(cs, p))[q] <= 1
    decreases cs, 0
  {
    if cs != [] {
      var up, rest := p + [cs[0].name], cs[1..];
      FilesBelowOnce(cs[0], up, q);
      FilesInOnce(rest, p, q);
      FilesBelowUnder(cs[0], up, q);
      FilesInUnder(rest, p, q);
      hide FilesBelow, WellFormed;
      assert q in FilesBelow(cs[0], up) ==> q[|p|] == up[|p|] == cs[0].name;
      assert forall j :: 0 <= j < |rest| ==> rest[j].name != cs[0].name;
      assert multiset(FilesIn(cs, p)) == multiset(FilesBelow(cs[0], up)) + multiset(FilesIn(rest, p));
      assert q in multiset(FilesBelow(cs[0], up)) <==> q in FilesBelow(cs[0], up);
      assert q in multiset(FilesIn(rest, p)) <==> q in FilesIn(rest, p);
    }
  }

  lemma {:induction false} FilesInHasChild(cs: seq<FileNode>, p: Path, c: FileNode, q: Path)
    requires c in cs && q in FilesBelow(c, p + [c.name])
    ensures q in FilesIn(cs, p)
  {
    if cs[0] != c { FilesInHasChild(cs[1..], p, c, q); }
  }

  lemma {:induction false} LocationPersists(locs: seq<Location>, rx: RegexLibrary, root: FileNode, p: Path, q: Path)
    requires StateAt(locs, rx, root, p).location.Some? && p <= q
    ensures StateAt(locs, rx, root, q).location == StateAt(locs, rx, root, p).location
    decreases |q|
  {
    if p != q {
      assert p <= q[..|q| - 1];
      LocationPersists(locs, rx, root, p, q[..|q| - 1]);
    }
  }

  /** In a location without rules no rule is in force. */
  lemma {:induction false} NoRulesInForce(locs: seq<Location>, rx: RegexLibrary, root: FileNode, k: nat, q: Path)
    requires k < |locs| && locs[k].rules == [] && StateAt(locs, rx, root, q).location == Some(k)
    ensures StateAt(locs, rx, root, q) == NodeState(Some(k), None, None)
    decreases |q|
  {
    if q != [] {
      var up := q[..|q| - 1];
      if StateAt(locs, rx, root, up).location.Some? {
        NoRulesInForce(locs, rx, root, k, up);
      } else {
        OutsideHasNoRules(locs, rx, root, up);
      }
    }
  }

  /** The rule that excludes exactly the file `f`. */
  function FileRule(f: Path): Rule {
    Rule(RuleType(Exclude, ForFile, Exact), FullPath(f))
  }

  lemma FileRuleOracle(f: Path, l: Location, rx: RegexLibrary) returns (o: Oracle)
    requires l.rules == [FileRule(f)]
    ensures OracleFor(o, l, rx)
    ensures forall file, isDir :: Refuses(o, rx, file, isDir) <==> !isDir && file == FullPath(f)
  {
    var r := FileRule(f);
    o := Oracle(BoxList([r.value], [], [], []), BoxList([], [], [], []));
    assert [r][..0] == [] && [] + [r.value] == [r.value];
    assert BoxListOf([], rx, true) == BoxListOf([], rx, false) == Some(BoxList([], [], [], []));
  }

  /** In a location that stands and has just this rule, the tree shows the file as excluded. */
  lemma FileRuleExcludes(locs: seq<Location>, rx: RegexLibrary, root: FileNode, i: nat, at: Path, f: Path)
    requires WellFormed(root) && NodeAt(root, at).Some? && Standing(locs, i, at) && at < f && locs[i].rules == [FileRule(f)]
    requires NodeAt(root, f).Some? && NodeAt(root, f).value.PlainFile?
    ensures ShownExcluded(StateAt(locs, rx, root, f))
  {
    hide StateAt, ShownExcluded, FullPath, LocationRoot;
    StandingIsRoot(locs, rx, root, i, at);
    WellFormedAt(root, f);
    var r := FileRule(f);
    assert Applies(r, Exclude, rx, FullPath(f), IsDir(root, f));
    assert r in locs[i].rules;
    ShownExcludedStep(locs, rx, root, i, at, f);
  }

  /** A location inside another: its scan leaves out a file that a rule of it excludes, but the tree shows the file as not excluded. */
  lemma NestedScanMisses(locs: seq<Location>, rx: RegexLibrary, root: FileNode, i: nat, at: Path, f: Path)
    requires WellFormed(root) && IsDir(root, at) && i < |locs| && locs[i].path == FullPath(at) && at != []
    requires !Standing(locs, i, at) && f in FilesBelow(NodeAt(root, at).value, at)
    requires locs[i].rules == [FileRule(f)] && forall j :: 0 <= j < |locs| && j != i ==> locs[j].rules == []
    ensures !ShownExcluded(StateAt(locs, rx, root, f)) && !ScanAgrees(locs, rx, root, i, at)
  {
    hide StateAt, ShownExcluded, Standing, FullPath, Counted, OracleFor, LocationRoot;
    var n, l := NodeAt(root, at).value, locs[i];
    FilesBelowAreFiles(root, at, n, f);
    FileIsBelow(root, at, f);
    StandingIsRoot(locs, rx, root, i, at);
    NotHere(locs, rx, root, i, at);
    LocationPersists(locs, rx, root, at, f);
    NoRulesInForce(locs, rx, root, StateAt(locs, rx, root, at).location.value, f);
    NoRuleInForce(StateAt(locs, rx, root, f));
    var o := FileRuleOracle(f, l, rx);
    ScanCountsAsIfAlone(l, rx, root, at, o);
    WellFormedAt(root, at);
    AloneStands(l, at);
    FileRuleExcludes([l], rx, root, 0, at, f);
    NotExcludedMembers([l], rx, root, FilesBelow(n, at), f);
    NotExcludedMembers(locs, rx, root, FilesBelow(n, at), f);
  }

  lemma FileIsBelow(root: FileNode, at: Path, f: Path)
    requires IsDir(root, at) && at <= f && NodeAt(root, f).Some? && NodeAt(root, f).value.PlainFile?
    ensures at < f
  {
    assert |at| == |f| ==> at == f;
  }

  lemma NotHere(locs: seq<Location>, rx: RegexLibrary, root: FileNode, i: nat, at: Path)
    requires WellFormed(root) && NodeAt(root, at).Some? && i < |locs| && locs[i].path == FullPath(at)
    requires !LocationRoot(locs, rx, root, i, at)
    ensures StateAt(locs, rx, root, at).location != Some(i)
  {
  }

  /** Paths that begin with two separators. */
  predicate DoubleSlash(s: string) {
    |s| >= 2 && s[0] == '/' && s[1] == '/'
  }

  lemma {:induction false} NothingRefused(o: Oracle, rx: RegexLibrary, cs: seq<FileNode>, dir: string, p: Path)
    requires forall file, isDir :: DoubleSlash(file) ==> !Refuses(o, rx, file, isDir)
    requires dir == "/" || DoubleSlash(dir)
    ensures Counted(o, rx, cs, dir, p) == FilesIn(cs, p)
    decreases cs
  {
    if cs != [] {
      var c, file := cs[0], dir + "/" + cs[0].name;
      assert DoubleSlash(file);
      if c.Directory? { NothingRefused(o, rx, c.children, file, p + [c.name]); }
      NothingRefused(o, rx, cs[1..], dir, p);
    }
  }

  lemma OneSlash(f: Path)
    requires GoodPath(f)
    ensures !DoubleSlash(FullPath(f))
  {
    if f != [] {
      var s := FullPath(f);
      assert GoodName(f[0]) && s == "/" + f[0] + Below(f[1..]);
      assert s[1] == f[0][0] && f[0][0] in f[0];
    }
  }

  /** The scan of a location at "/" names its entries with two separators, and so counts a file that a rule excludes by its path. */
  lemma RootScanMisses(locs: seq<Location>, rx: RegexLibrary, root: FileNode, i: nat, f: Path)
    requires WellFormed(root) && IsDir(root, []) && i < |locs| && locs[i].path == "/"
    requires f in FilesBelow(root, []) && forall j :: 0 <= j < |locs| ==> locs[j].rules == [FileRule(f)]
    ensures ShownExcluded(StateAt(locs, rx, root, f)) && !ScanAgrees(locs, rx, root, i, [])
  {
    hide StateAt, ShownExcluded, FullPath, LocationRoot, Counted, OracleFor;
    FilesBelowAreFiles(root, [], root, f);
    FileIsBelow(root, [], f);
    WellFormedAt(root, f);
    OneSlash(f);
    var o := FileRuleOracle(f, locs[i], rx);
    NothingRefused(o, rx, root.children, "/", []);
    var k := FirstAtRoot(locs, i);
    FileRuleExcludes(locs, rx, root, k, [], f);
    NotExcludedMembers(locs, rx, root, FilesBelow(root, []), f);
  }

  lemma FirstAtRoot(locs: seq<Location>, i: nat) returns (k: nat)
    requires i < |locs| && locs[i].path == "/"
    ensures Standing(locs, k, [])
  {
    k := FindLocation(locs, "/").value;
    FirstIsFirst(locs, "/");
  }

  /**
   * For given locations and a given tree, the scan of location `i` agrees with what the tree
   * shows whatever the rules are, if and only if there is no file in question, or the location
   * is not at "/", no earlier one is in the same place, and none is above it.
   */
  lemma ScanAgreesExactly(locs: seq<Location>, rx: RegexLibrary, root: FileNode, i: nat, at: Path)
    requires WellFormed(root) && IsDir(root, at) && i < |locs| && locs[i].path == FullPath(at)
    ensures ScanAgreesForAllRules(locs, rx, root, i, at) <==>
            FilesBelow(NodeAt(root, at).value, at) == [] || (at != [] && Standing(locs, i, at))
  {
    hide ScanAgrees, Standing, FilesBelow;
    var files := FilesBelow(NodeAt(root, at).value, at);
    if files == [] || (at != [] && Standing(locs, i, at)) {
      forall rules: seq<seq<Rule>> | |rules| == |locs|
        ensures ScanAgrees(WithAllRules(locs, rules), rx, root, i, at)
      {
        AgreesThere(WithAllRules(locs, rules), locs, rx, root, i, at);
      }
    } else {
      var f := files[0];
      var rules := seq(|locs|, j => if j == i || at == [] then [FileRule(f)] else []);
      var there := WithAllRules(locs, rules);
      StandingHasNoRules(locs, there, i, at);
      if at == [] {
        RootScanMisses(there, rx, root, i, f);
      } else {
        NestedScanMisses(there, rx, root, i, at, f);
      }
      assert !ScanAgrees(WithAllRules(locs, rules), rx, root, i, at);
    }
  }

  lemma StandingHasNoRules(a: seq<Location>, b: seq<Location>, i: nat, at: Path)
    requires |a| == |b| && forall j :: 0 <= j < |a| ==> a[j].path == b[j].path
    ensures Standing(a, i, at) <==> Standing(b, i, at)
  {
  }

  lemma AgreesThere(locs: seq<Location>, other: seq<Location>, rx: RegexLibrary, root: FileNode, i: nat, at: Path)
    requires WellFormed(root) && IsDir(root, at) && i < |locs| == |other| && locs[i].path == FullPath(at)
    requires forall j :: 0 <= j < |locs| ==> locs[j].path == other[j].path
    requires FilesBelow(NodeAt(root, at).value, at) == [] || (at != [] && Standing(other, i, at))
    ensures ScanAgrees(locs, rx, root, i, at)
  {
    var n := NodeAt(root, at).value;
    forall o | OracleFor(o, locs[i], rx)
      ensures Counted(o, rx, n.children, locs[i].path, at) == NotExcluded(locs, rx, root, FilesBelow(n, at))
    {
      hide StateAt, Standing, Counted, OracleFor;
      if FilesBelow(n, at) == [] {
        NoFilesNoneCounted(o, rx, n.children, locs[i].path, at);
      } else {
        StandingHasNoRules(other, locs, i, at);
        ScanCountsWhatIsShown(locs, rx, root, i, at, o);
      }
    }
  }
}
