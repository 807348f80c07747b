/**
 * What activating a node of the backup tree does to the rules of its location
 * (BackupLocationsPanel::OnTreeNodeActivate), and what that does to the states shown.
 */
module BackupActivation {
  import opened Common
  import opened LocalPath
  import opened ExcludeRules
  import opened BackupTree

  // ----- the rules that are made -----

  function FileDirOf(root: FileNode, p: Path): FileDir {
    if IsDir(root, p) then ForDir else ForFile
  }

  /** A rule for exactly this node. */
  function ExactRule(sense: Sense, root: FileNode, p: Path): Rule {
    Rule(RuleType(sense, FileDirOf(root, p), Exact), FullPath(p))
  }

  /** A rule for all files, or all directories, below this node. */
  function BelowRule(sense: Sense, fileDir: FileDir, p: Path): Rule {
    Rule(RuleType(sense, fileDir, Regex), BelowExpression(p))
  }

  /** The expression that is made for what is below `p`. The path goes into it as it is, with no character escaped. */
  function BelowExpression(p: Path): string {
    "^" + FullPath(p) + "/"
  }

  predicate FindsBelow(rx: RegexLibrary, p: Path, q: Path) {
    rx.compiles(BelowExpression(p)) && rx.finds(BelowExpression(p), FullPath(q))
  }

  /** On the way to `q`, the expression finds just what is below `p`. */
  ghost predicate MeansBelow(rx: RegexLibrary, p: Path, q: Path) {
    forall k :: 0 <= k <= |q| ==> (FindsBelow(rx, p, q[..k]) <==> p < q[..k])
  }

  lemma MeansBelowPrefix(rx: RegexLibrary, p: Path, q: Path, j: nat)
    requires MeansBelow(rx, p, q) && j <= |q|
    ensures MeansBelow(rx, p, q[..j])
    ensures FindsBelow(rx, p, q[..j]) <==> p < q[..j]
  {
    forall k | 0 <= k <= j ensures q[..j][..k] == q[..k] {}
  }

  /** Expressions are taken by their letters, as they are for paths without special characters: "^" before a text finds what begins with the text. */
  ghost predicate ByLetters(rx: RegexLibrary) {
    forall s: string :: FindsByLetters(rx, s)
  }

  ghost predicate FindsByLetters(rx: RegexLibrary, s: string) {
    rx.compiles("^" + s) && forall file: string :: rx.finds("^" + s, file) <==> s <= file
  }

  /** Such a library: every expression compiles, and finds what begins with the text after its first character. */
  lemma ByLettersExample()
    ensures ByLetters(RegexLibrary(e => true, (e: string, file: string) => e != "" && e[1..] <= file))
  {
    var rx := RegexLibrary(e => true, (e: string, file: string) => e != "" && e[1..] <= file);
    forall s: string
      ensures FindsByLetters(rx, s)
    {
      assert ("^" + s)[1..] == s;
    }
  }

  /** Then the expression that is made for a directory finds what it is meant to. */
  lemma LiteralMeansBelow(rx: RegexLibrary, p: Path, q: Path)
    requires GoodPath(p) && GoodPath(q) && p != [] && FindsByLetters(rx, FullPath(p) + "/")
    ensures MeansBelow(rx, p, q)
  {
    var s := FullPath(p) + "/";
    Regroup("^", FullPath(p), "/");
    assert BelowExpression(p) == "^" + s;
    forall k | 0 <= k <= |q|
      ensures FindsBelow(rx, p, q[..k]) <==> p < q[..k]
    {
      BelowPrefix(p, q[..k]);
      assert rx.finds("^" + s, FullPath(q[..k])) <==> s <= FullPath(q[..k]);
      if k == 0 { assert |s| > 1; }
    }
  }

  // ----- including an excluded node -----

  /** How many nodes from `p` up are excluded without a break, the root of the tree not counting. */
  function ExcludedHeight(locs: seq<Location>, rx: RegexLibrary, root: FileNode, p: Path): (n: nat)
    ensures n <= |p|
    decreases |p|
  {
    if p == [] || !ShownExcluded(StateAt(locs, rx, root, p)) then 0
    else 1 + ExcludedHeight(locs, rx, root, p[..|p| - 1])
  }

  /** Insert an AlwaysInclude rule for `p` and for the `n - 1` nodes above it. */
  function InsertIncludes(rules: seq<Rule>, pos: int, root: FileNode, p: Path, n: nat): seq<Rule>
    requires n <= |p|
    decreases n
  {
    if n == 0 then rules
    else InsertIncludes(Inserted(rules, pos, ExactRule(AlwaysInclude, root, p)), pos, root, p[..|p| - 1], n - 1)
  }

  /** The rules after an excluded node `x`, the lowest of `n` excluded nodes, has been included. */
  function Including(rules: seq<Rule>, root: FileNode, x: Path, n: nat): seq<Rule>
    requires 0 < n <= |x|
  {
    var pos, top := |rules|, x[..|x| - n + 1];
    var chain := InsertIncludes(rules, pos, root, x, n);
    var fenced := if n == 1 then chain
                  else Inserted(Inserted(chain, pos, BelowRule(Exclude, ForFile, top)), pos, BelowRule(Exclude, ForDir, top));
    if IsDir(root, x) then
      Added(Added(fenced, BelowRule(AlwaysInclude, ForDir, x)), BelowRule(AlwaysInclude, ForFile, x))
    else
      Added(fenced, ExactRule(AlwaysInclude, root, x))
  }

  /** The rules that including `x` makes, whether or not they were there before. */
  ghost predicate IsMade(r: Rule, root: FileNode, x: Path, n: nat)
    requires 0 < n <= |x|
  {
    || (exists j :: |x| - n < j <= |x| && r == ExactRule(AlwaysInclude, root, x[..j]))
    || (n > 1 && (r == BelowRule(Exclude, ForFile, x[..|x| - n + 1]) || r == BelowRule(Exclude, ForDir, x[..|x| - n + 1])))
    || (IsDir(root, x) && (r == BelowRule(AlwaysInclude, ForDir, x) || r == BelowRule(AlwaysInclude, ForFile, x)))
  }

  /** `now` is `rules` followed by others, all of them from `made`. */
  ghost predicate Extends(rules: seq<Rule>, now: seq<Rule>, made: Rule -> bool) {
    rules <= now && forall r :: r in now[|rules|..] ==> made(r)
  }

  lemma InsertedExtends(rules: seq<Rule>, now: seq<Rule>, r: Rule, made: Rule -> bool)
    requires Extends(rules, now, made) && made(r)
    ensures Extends(rules, Inserted(now, |rules|, r), made) && Extends(rules, Added(now, r), made)
    ensures forall x :: x in Inserted(now, |rules|, r) <==> x in now || x == r
    ensures forall x :: x in Added(now, r) <==> x in now || x == r
  {
    var k := |rules|;
    assert now == now[..k] + now[k..];
    if r !in now {
      assert Inserted(now, k, r)[k..] == [r] + now[k..];
      assert Added(now, r)[k..] == now[k..] + [r];
    }
  }

  lemma {:induction false} InsertIncludesExtends(rules: seq<Rule>, now: seq<Rule>, root: FileNode, p: Path, n: nat, made: Rule -> bool)
    requires n <= |p| && Extends(rules, now, made)
    requires forall j :: |p| - n < j <= |p| ==> made(ExactRule(AlwaysInclude, root, p[..j]))
    ensures Extends(rules, InsertIncludes(now, |rules|, root, p, n), made)
    ensures forall r :: r in now ==> r in InsertIncludes(now, |rules|, root, p, n)
    ensures forall j :: |p| - n < j <= |p| ==> ExactRule(AlwaysInclude, root, p[..j]) in InsertIncludes(now, |rules|, root, p, n)
    decreases n
  {
    hide ExactRule, Inserted, Extends;
    if n > 0 {
      var r, up := ExactRule(AlwaysInclude, root, p), p[..|p| - 1];
      assert p[..|p|] == p;
      InsertedExtends(rules, now, r, made);
      forall j | |p| - n < j <= |p| - 1
        ensures up[..j] == p[..j]
      {
      }
      InsertIncludesExtends(rules, Inserted(now, |rules|, r), root, up, n - 1, made);
    }
  }

  /** Including a node keeps the rules as they were and adds after them the ones that it makes. */
  lemma IncludingExtends(rules: seq<Rule>, root: FileNode, x: Path, n: nat)
    requires 0 < n <= |x|
    ensures Extends(rules, Including(rules, root, x, n), r => IsMade(r, root, x, n))
    ensures forall r :: IsMade(r, root, x, n) ==> r in Including(rules, root, x, n)
  {
    var made := r => IsMade(r, root, x, n);
    var pos, top := |rules|, x[..|x| - n + 1];
    assert x[..|x|] == x;
    assert rules[|rules|..] == [];
    InsertIncludesExtends(rules, rules, root, x, n, made);
    var chain := InsertIncludes(rules, pos, root, x, n);
    var f, d := BelowRule(Exclude, ForFile, top), BelowRule(Exclude, ForDir, top);
    var fenced := if n == 1 then chain else Inserted(Inserted(chain, pos, f), pos, d);
    if n > 1 {
      InsertedExtends(rules, chain, f, made);
      InsertedExtends(rules, Inserted(chain, pos, f), d, made);
    }
    if IsDir(root, x) {
      var xd, xf := BelowRule(AlwaysInclude, ForDir, x), BelowRule(AlwaysInclude, ForFile, x);
      InsertedExtends(rules, fenced, xd, made);
      InsertedExtends(rules, Added(fenced, xd), xf, made);
    } else {
      InsertedExtends(rules, fenced, ExactRule(AlwaysInclude, root, x), made);
    }
  }

  // ----- which nodes the rules match -----

  lemma ExactRuleApplies(root: FileNode, rx: RegexLibrary, sense: Sense, p: Path, q: Path)
    requires GoodPath(p) && GoodPath(q)
    ensures Applies(ExactRule(sense, root, p), sense, rx, FullPath(q), IsDir(root, q)) <==> p == q
  {
    FullPathInjective(p, q);
  }

  lemma BelowRuleApplies(root: FileNode, rx: RegexLibrary, sense: Sense, fileDir: FileDir, p: Path, q: Path)
    ensures Applies(BelowRule(sense, fileDir, p), sense, rx, FullPath(q), IsDir(root, q)) <==>
            FindsBelow(rx, p, q) && fileDir == FileDirOf(root, q)
  {
  }

  /** Which nodes the made rules match. */
  ghost predicate MadeExcludes(rx: RegexLibrary, x: Path, n: nat, q: Path)
    requires 0 < n <= |x|
  {
    n > 1 && FindsBelow(rx, x[..|x| - n + 1], q)
  }

  ghost predicate MadeIncludes(rx: RegexLibrary, root: FileNode, x: Path, n: nat, q: Path)
    requires 0 < n <= |x|
  {
    (|x| - n < |q| && q <= x) || (IsDir(root, x) && FindsBelow(rx, x, q))
  }

  /** On the way to `q`, the expressions that are made find what they are meant to; a plain file that is excluded by itself needs none. */
  ghost predicate Meant(rx: RegexLibrary, root: FileNode, x: Path, n: nat, q: Path)
    requires 0 < n <= |x|
  {
    (IsDir(root, x) ==> MeansBelow(rx, x, q)) && (n > 1 ==> MeansBelow(rx, x[..|x| - n + 1], q))
  }

  lemma MeantPrefix(rx: RegexLibrary, root: FileNode, x: Path, n: nat, q: Path, j: nat)
    requires 0 < n <= |x| && Meant(rx, root, x, n, q) && j <= |q|
    ensures Meant(rx, root, x, n, q[..j])
  {
    hide MeansBelow;
    if IsDir(root, x) { MeansBelowPrefix(rx, x, q, j); }
    if n > 1 { MeansBelowPrefix(rx, x[..|x| - n + 1], q, j); }
  }

  /** Then the made rules match the nodes from the highest excluded node down, and say how. */
  lemma MadeAsMeant(rx: RegexLibrary, root: FileNode, x: Path, n: nat, q: Path)
    requires 0 < n <= |x| && Meant(rx, root, x, n, q)
    ensures MadeExcludes(rx, x, n, q) <==> n > 1 && x[..|x| - n + 1] < q
    ensures MadeIncludes(rx, root, x, n, q) <==> (|x| - n < |q| && q <= x) || (IsDir(root, x) && x < q)
  {
    hide MeansBelow, FindsBelow;
    assert q[..|q|] == q;
    if IsDir(root, x) { MeansBelowPrefix(rx, x, q, |q|); }
    if n > 1 { MeansBelowPrefix(rx, x[..|x| - n + 1], q, |q|); }
  }

  lemma MadeApplies(root: FileNode, rx: RegexLibrary, x: Path, n: nat, r: Rule, q: Path)
    requires 0 < n <= |x| && IsMade(r, root, x, n) && GoodPath(x) && GoodPath(q)
    ensures Applies(r, Exclude, rx, FullPath(q), IsDir(root, q)) ==> MadeExcludes(rx, x, n, q)
    ensures Applies(r, AlwaysInclude, rx, FullPath(q), IsDir(root, q)) ==> MadeIncludes(rx, root, x, n, q)
  {
    var top := x[..|x| - n + 1];
    if j :| |x| - n < j <= |x| && r == ExactRule(AlwaysInclude, root, x[..j]) {
      ExactRuleApplies(root, rx, AlwaysInclude, x[..j], q);
    } else if n > 1 && r.kind.sense == Exclude {
      BelowRuleApplies(root, rx, Exclude, r.kind.fileDir, top, q);
    } else {
      BelowRuleApplies(root, rx, AlwaysInclude, r.kind.fileDir, x, q);
    }
  }

  lemma IncludingMatches(rules: seq<Rule>, root: FileNode, rx: RegexLibrary, x: Path, n: nat, q: Path)
    requires 0 < n <= |x| && GoodPath(x) && GoodPath(q)
    ensures var now := Including(rules, root, x, n);
            && (NameMatch(now, Exclude, rx, root, q) <==> NameMatch(rules, Exclude, rx, root, q) || MadeExcludes(rx, x, n, q))
            && (NameMatch(now, AlwaysInclude, rx, root, q) <==> NameMatch(rules, AlwaysInclude, rx, root, q) || MadeIncludes(rx, root, x, n, q))
  {
    hide Including, Applies, ExactRule, BelowRule, FullPath, Below, IsDir, FindsBelow;
    var now, top, fd := Including(rules, root, x, n), x[..|x| - n + 1], FileDirOf(root, q);
    IncludingExtends(rules, root, x, n);
    assert now == rules + now[|rules|..];
    forall r | r in now[|rules|..]
      ensures Applies(r, Exclude, rx, FullPath(q), IsDir(root, q)) ==> MadeExcludes(rx, x, n, q)
      ensures Applies(r, AlwaysInclude, rx, FullPath(q), IsDir(root, q)) ==> MadeIncludes(rx, root, x, n, q)
    {
      MadeApplies(root, rx, x, n, r, q);
    }
    if MadeExcludes(rx, x, n, q) {
      BelowRuleApplies(root, rx, Exclude, fd, top, q);
      assert BelowRule(Exclude, fd, top) in now;
    }
    if MadeIncludes(rx, root, x, n, q) {
      if |x| - n < |q| && q <= x {
        assert q == x[..|q|];
        ExactRuleApplies(root, rx, AlwaysInclude, q, q);
        assert ExactRule(AlwaysInclude, root, x[..|q|]) in now;
      } else {
        BelowRuleApplies(root, rx, AlwaysInclude, fd, x, q);
        assert BelowRule(AlwaysInclude, fd, x) in now;
      }
    }
  }

  lemma {:induction false} FirstMatchOfExtension(rules: seq<Rule>, more: seq<Rule>, sense: Sense, rx: RegexLibrary, file: string, isDir: bool)
    requires forall r :: r in more ==> !Applies(r, sense, rx, file, isDir)
    ensures FirstMatch(rules + more, sense, rx, file, isDir) == FirstMatch(rules, sense, rx, file, isDir)
  {
    if rules == [] {
      assert rules + more == more;
      FirstMatchIsAnyMatch(more, sense, rx, file, isDir);
    } else {
      assert (rules + more)[0] == rules[0] && (rules + more)[1..] == rules[1..] + more;
      FirstMatchOfExtension(rules[1..], more, sense, rx, file, isDir);
    }
  }

  // ----- editing the rules of one location -----

  function WithRules(locs: seq<Location>, i: nat, rules: seq<Rule>): (r: seq<Location>)
    requires i < |locs|
  {
    locs[i := locs[i].(rules := rules)]
  }

  lemma {:induction false} FindLocationWithRules(locs: seq<Location>, i: nat, rules: seq<Rule>, path: string)
    requires i < |locs|
    ensures FindLocation(WithRules(locs, i, rules), path) == FindLocation(locs, path)
  {
    var locs' := WithRules(locs, i, rules);
    if i > 0 {
      assert locs'[1..] == WithRules(locs[1..], i - 1, rules);
      FindLocationWithRules(locs[1..], i - 1, rules, path);
    } else {
      assert locs'[1..] == locs[1..];
    }
  }

  /** Other rules leave every node in the location that it was in. */
  lemma {:induction false} SameLocation(locs: seq<Location>, i: nat, rules: seq<Rule>, rx: RegexLibrary, root: FileNode, p: Path)
    requires i < |locs|
    ensures StateAt(WithRules(locs, i, rules), rx, root, p).location == StateAt(locs, rx, root, p).location
    decreases |p|
  {
    FindLocationWithRules(locs, i, rules, FullPath(p));
    if p != [] {
      SameLocation(locs, i, rules, rx, root, p[..|p| - 1]);
    }
  }

  /** Outside the location whose rules are edited, nothing changes. */
  lemma {:induction false} OtherNodesKeepTheirState(locs: seq<Location>, i: nat, rules: seq<Rule>, rx: RegexLibrary, root: FileNode, p: Path)
    requires i < |locs| && StateAt(locs, rx, root, p).location != Some(i)
    ensures StateAt(WithRules(locs, i, rules), rx, root, p) == StateAt(locs, rx, root, p)
    decreases |p|
  {
    FindLocationWithRules(locs, i, rules, FullPath(p));
    if p != [] {
      if StateAt(locs, rx, root, p[..|p| - 1]).location != Some(i) {
        OtherNodesKeepTheirState(locs, i, rules, rx, root, p[..|p| - 1]);
      }
    }
  }

  lemma LocationRootKept(locs: seq<Location>, i: nat, rules: seq<Rule>, rx: RegexLibrary, root: FileNode, at: Path)
    requires LocationRoot(locs, rx, root, i, at)
    ensures LocationRoot(WithRules(locs, i, rules), rx, root, i, at)
  {
    SameLocation(locs, i, rules, rx, root, at);
  }

  // ----- what including an excluded node shows -----

  /** An activated node `x` that is excluded, `n` nodes high, inside the location that begins at `at`. */
  ghost predicate ExcludedAt(locs: seq<Location>, rx: RegexLibrary, root: FileNode, i: nat, at: Path, x: Path, n: nat) {
    && LocationRoot(locs, rx, root, i, at) && at < x && NodeAt(root, x).Some?
    && n == ExcludedHeight(locs, rx, root, x) && n > 0
  }

  lemma {:induction false} HeightStates(locs: seq<Location>, rx: RegexLibrary, root: FileNode, x: Path)
    ensures var n := ExcludedHeight(locs, rx, root, x);
            && (forall j :: |x| - n < j <= |x| ==> ShownExcluded(StateAt(locs, rx, root, x[..j])))
            && (n == |x| || !ShownExcluded(StateAt(locs, rx, root, x[..|x| - n])))
    decreases |x|
  {
    hide StateAt, ShownExcluded;
    assert x[..|x|] == x;
    if x != [] && ShownExcluded(StateAt(locs, rx, root, x)) {
      var up := x[..|x| - 1];
      HeightStates(locs, rx, root, up);
      assert forall j :: 0 <= j <= |up| ==> up[..j] == x[..j];
    }
  }

  /** The excluded nodes above `x` end inside the location, below a node that is not excluded. */
  lemma ExcludedTop(locs: seq<Location>, rx: RegexLibrary, root: FileNode, i: nat, at: Path, x: Path)
    requires LocationRoot(locs, rx, root, i, at) && at < x
    ensures var n := ExcludedHeight(locs, rx, root, x);
            && |at| <= |x| - n && at <= x[..|x| - n]
            && !ShownExcluded(StateAt(locs, rx, root, x[..|x| - n]))
            && (n > 0 ==> ShownExcluded(StateAt(locs, rx, root, x[..|x| - n + 1])))
  {
    LocationRootState(locs, rx, root, i, at);
    HeightStates(locs, rx, root, x);
    hide StateAt, LocationRoot;
    assert at == x[..|at|];
  }

  /** Where the activated node, the highest excluded node and the beginning of the location lie. */
  lemma Geometry(locs: seq<Location>, rx: RegexLibrary, root: FileNode, i: nat, at: Path, x: Path, n: nat)
    requires ExcludedAt(locs, rx, root, i, at, x, n)
    ensures 0 < n <= |x| && |at| <= |x| - n && i < |locs|
    ensures at <= x[..|x| - n] && at < x[..|x| - n + 1] && at == x[..|at|]
    ensures LocationRoot(locs, rx, root, i, at) && GoodPath(x) && NodeAt(root, x).Some?
    ensures !ShownExcluded(StateAt(locs, rx, root, x[..|x| - n]))
    ensures ShownExcluded(StateAt(locs, rx, root, x[..|x| - n + 1]))
  {
    hide StateAt, GoodPath, NodeAt, ShownExcluded, ExcludedHeight;
    TreeAt(locs, rx, root, i, at, x);
    ExcludedTop(locs, rx, root, i, at, x);
    assert at == x[..|at|];
    assert at == x[..|x| - n][..|at|] == x[..|x| - n + 1][..|at|];
  }

  lemma GoodPrefix(p: Path, j: nat)
    requires GoodPath(p) && j <= |p|
    ensures GoodPath(p[..j])
  {
  }

  /** The made rules match nothing but the highest excluded node and what is below it. */
  lemma MadeMatchesBelowTop(rx: RegexLibrary, root: FileNode, x: Path, n: nat, q: Path)
    requires 0 < n <= |x| && Meant(rx, root, x, n, q) && (MadeExcludes(rx, x, n, q) || MadeIncludes(rx, root, x, n, q))
    ensures x[..|x| - n + 1] <= q
  {
    var top := x[..|x| - n + 1];
    MadeAsMeant(rx, root, x, n, q);
    if q <= x {
      assert q == x[..|q|];
      if |x| - n < |q| { assert top == q[..|top|]; }
    } else if x < q {
      assert top == q[..|top|] by { assert x == q[..|x|]; }
    }
  }

  lemma FirstMatchesKept(rules: seq<Rule>, rx: RegexLibrary, root: FileNode, x: Path, n: nat, q: Path, sense: Sense)
    requires 0 < n <= |x| && GoodPath(x) && GoodPath(q) && !(x[..|x| - n + 1] <= q) && Meant(rx, root, x, n, q)
    ensures FirstMatch(Including(rules, root, x, n), sense, rx, FullPath(q), IsDir(root, q)) ==
            FirstMatch(rules, sense, rx, FullPath(q), IsDir(root, q))
  {
    var now := Including(rules, root, x, n);
    IncludingExtends(rules, root, x, n);
    hide Including, MadeExcludes, MadeIncludes, Applies, Meant;
    assert now == rules + now[|rules|..];
    forall r | r in now[|rules|..]
      ensures !Applies(r, sense, rx, FullPath(q), IsDir(root, q))
    {
      MadeApplies(root, rx, x, n, r, q);
      if MadeExcludes(rx, x, n, q) || MadeIncludes(rx, root, x, n, q) {
        MadeMatchesBelowTop(rx, root, x, n, q);
      }
    }
    FirstMatchOfExtension(rules, now[|rules|..], sense, rx, FullPath(q), IsDir(root, q));
  }

  lemma UpdatedKept(locs: seq<Location>, i: nat, rules: seq<Rule>, rx: RegexLibrary, parent: NodeState, path: string, isDir: bool)
    requires i < |locs| && (parent.location.Some? ==> parent.location.value < |locs|)
    requires FirstMatch(rules, Exclude, rx, path, isDir) == FirstMatch(locs[i].rules, Exclude, rx, path, isDir)
    requires FirstMatch(rules, AlwaysInclude, rx, path, isDir) == FirstMatch(locs[i].rules, AlwaysInclude, rx, path, isDir)
    ensures Updated(WithRules(locs, i, rules), rx, parent, path, isDir) == Updated(locs, rx, parent, path, isDir)
  {
    hide FirstMatch, FindLocation;
    FindLocationWithRules(locs, i, rules, path);
  }

  /** The locations once the excluded node has been included. */
  function WithIncluded(locs: seq<Location>, i: nat, root: FileNode, x: Path, n: nat): seq<Location>
    requires i < |locs| && 0 < n <= |x|
  {
    WithRules(locs, i, Including(locs[i].rules, root, x, n))
  }

  /** Nodes that are not at or below the highest excluded node keep their whole state. */
  lemma {:induction false} OutsideTopKept(locs: seq<Location>, rx: RegexLibrary, root: FileNode, i: nat, at: Path, x: Path, n: nat, q: Path)
    requires ExcludedAt(locs, rx, root, i, at, x, n) && GoodPath(q) && !(x[..|x| - n + 1] <= q) && Meant(rx, root, x, n, q)
    ensures StateAt(WithIncluded(locs, i, root, x, n), rx, root, q) == StateAt(locs, rx, root, q)
    decreases |q|
  {
    hide Including, Meant, FirstMatch, FullPath, IsDir, Updated, NodeAt;
    var rules, parent := locs[i].rules, Outside;
    WellFormedAt(root, x);
    FirstMatchesKept(rules, rx, root, x, n, q, Exclude);
    FirstMatchesKept(rules, rx, root, x, n, q, AlwaysInclude);
    if q != [] {
      var up := q[..|q| - 1];
      assert !(x[..|x| - n + 1] <= up);
      MeantPrefix(rx, root, x, n, q, |q| - 1);
      OutsideTopKept(locs, rx, root, i, at, x, n, up);
      parent := StateAt(locs, rx, root, up);
    }
    UpdatedKept(locs, i, Including(rules, root, x, n), rx, parent, FullPath(q), IsDir(root, q));
  }

  /** How the states follow from each other down the tree once `x` has been included. */
  lemma StepAfter(locs: seq<Location>, rx: RegexLibrary, root: FileNode, i: nat, at: Path, x: Path, n: nat, q: Path)
    requires ExcludedAt(locs, rx, root, i, at, x, n) && GoodPath(x) && GoodPath(q) && at < q
    ensures ShownExcluded(StateAt(WithIncluded(locs, i, root, x, n), rx, root, q)) <==>
              || ShownExcluded(StateAt(WithIncluded(locs, i, root, x, n), rx, root, q[..|q| - 1]))
              || (&& (NameMatch(locs[i].rules, Exclude, rx, root, q) || MadeExcludes(rx, x, n, q))
                  && !(NameMatch(locs[i].rules, AlwaysInclude, rx, root, q) || MadeIncludes(rx, root, x, n, q)))
  {
    hide StateAt, Including, FindsBelow, NameMatch, ShownExcluded, ExcludedHeight;
    var now := Including(locs[i].rules, root, x, n);
    LocationRootKept(locs, i, now, rx, root, at);
    ShownExcludedStep(WithRules(locs, i, now), rx, root, i, at, q);
    IncludingMatches(locs[i].rules, root, rx, x, n, q);
  }

  lemma StepIncluded(locs: seq<Location>, rx: RegexLibrary, root: FileNode, i: nat, at: Path, x: Path, n: nat, q: Path)
    requires ExcludedAt(locs, rx, root, i, at, x, n) && GoodPath(x) && GoodPath(q) && at < q
    requires MadeIncludes(rx, root, x, n, q)
    requires !ShownExcluded(StateAt(WithIncluded(locs, i, root, x, n), rx, root, q[..|q| - 1]))
    ensures !ShownExcluded(StateAt(WithIncluded(locs, i, root, x, n), rx, root, q))
  {
    StepAfter(locs, rx, root, i, at, x, n, q);
  }

  lemma ChainIsMade(rx: RegexLibrary, root: FileNode, x: Path, n: nat, j: nat)
    requires 0 < n <= |x| && |x| - n < j <= |x|
    ensures MadeIncludes(rx, root, x, n, x[..j])
  {
  }

  /** The node itself, and the excluded nodes above it, are not excluded any more. */
  lemma {:induction false} ChainIncluded(locs: seq<Location>, rx: RegexLibrary, root: FileNode, i: nat, at: Path, x: Path, n: nat, j: nat)
    requires ExcludedAt(locs, rx, root, i, at, x, n) && |x| - n <= j <= |x| && Meant(rx, root, x, n, x[..|x| - n])
    ensures !ShownExcluded(StateAt(WithIncluded(locs, i, root, x, n), rx, root, x[..j]))
    decreases j
  {
    hide *;
    Geometry(locs, rx, root, i, at, x, n);
    var q := x[..j];
    GoodPrefix(x, j);
    if j == |x| - n {
      assert |q| < |x[..|x| - n + 1]|;
      OutsideTopKept(locs, rx, root, i, at, x, n, q);
    } else {
      ChainIncluded(locs, rx, root, i, at, x, n, j - 1);
      assert q[..|q| - 1] == x[..j - 1];
      assert at == q[..|at|] && at < q;
      ChainIsMade(rx, root, x, n, j);
      StepIncluded(locs, rx, root, i, at, x, n, q);
    }
  }

  /** Everything below the node is not excluded any more. */
  lemma {:induction false} BelowIncluded(locs: seq<Location>, rx: RegexLibrary, root: FileNode, i: nat, at: Path, x: Path, n: nat, q: Path)
    requires ExcludedAt(locs, rx, root, i, at, x, n) && x <= q && NodeAt(root, q).Some? && Meant(rx, root, x, n, q)
    ensures !ShownExcluded(StateAt(WithIncluded(locs, i, root, x, n), rx, root, q))
    decreases |q|
  {
    hide StateAt, WithIncluded, Meant, NameMatch, ShownExcluded, ExcludedHeight, FindsBelow;
    if x == q {
      MeantPrefix(rx, root, x, n, q, |x| - n);
      ChainIncluded(locs, rx, root, i, at, x, n, |x|);
      assert x[..|x|] == x;
    } else {
      var up := q[..|q| - 1];
      assert q[..|x|] == x && x <= up && at < q;
      NodeAtPrefix(root, q, |q| - 1);
      MeantPrefix(rx, root, x, n, q, |q| - 1);
      MadeAsMeant(rx, root, x, n, q);
      BelowIncluded(locs, rx, root, i, at, x, n, up);
      WellFormedAt(root, x);
      WellFormedAt(root, q);
      NodeAtPrefix(root, q, |x|);
      StepAfter(locs, rx, root, i, at, x, n, q);
    }
  }

  /** Some node on the way from the path down to `x` to `q` is not matched by an AlwaysInclude rule. */
  ghost predicate BarredOnTheWay(rules: seq<Rule>, rx: RegexLibrary, root: FileNode, x: Path, q: Path) {
    exists j :: 0 < j <= |q| && !(q[..j] <= x) && !NameMatch(rules, AlwaysInclude, rx, root, q[..j])
  }

  lemma BarredStep(rules: seq<Rule>, rx: RegexLibrary, root: FileNode, x: Path, q: Path)
    requires q != [] && !(q <= x)
    ensures BarredOnTheWay(rules, rx, root, x, q) <==>
            BarredOnTheWay(rules, rx, root, x, q[..|q| - 1]) || !NameMatch(rules, AlwaysInclude, rx, root, q)
  {
    hide NameMatch;
    var up := q[..|q| - 1];
    assert q[..|q|] == q;
    assert forall j :: 0 <= j <= |up| ==> up[..j] == q[..j];
    if BarredOnTheWay(rules, rx, root, x, up) {
      var j :| 0 < j <= |up| && !(up[..j] <= x) && !NameMatch(rules, AlwaysInclude, rx, root, up[..j]);
      assert !(q[..j] <= x) && !NameMatch(rules, AlwaysInclude, rx, root, q[..j]);
    }
    if BarredOnTheWay(rules, rx, root, x, q) && NameMatch(rules, AlwaysInclude, rx, root, q) {
      var j :| 0 < j <= |q| && !(q[..j] <= x) && !NameMatch(rules, AlwaysInclude, rx, root, q[..j]);
      assert !(up[..j] <= x) && !NameMatch(rules, AlwaysInclude, rx, root, up[..j]);
    }
  }

  /** Off the way to `x`, a node stays excluded unless older AlwaysInclude rules lead all the way to it. */
  lemma {:induction false} OffChain(locs: seq<Location>, rx: RegexLibrary, root: FileNode, i: nat, at: Path, x: Path, n: nat, q: Path)
    requires ExcludedAt(locs, rx, root, i, at, x, n) && NodeAt(root, q).Some? && Meant(rx, root, x, n, q)
    requires x[..|x| - n + 1] <= q && !(q <= x) && !(x <= q)
    ensures ShownExcluded(StateAt(WithIncluded(locs, i, root, x, n), rx, root, q)) <==>
            BarredOnTheWay(locs[i].rules, rx, root, x, q)
    decreases |q|
  {
    hide *;
    Geometry(locs, rx, root, i, at, x, n);
    var rules, top, up := locs[i].rules, x[..|x| - n + 1], q[..|q| - 1];
    TreeAt(locs, rx, root, i, at, q);
    assert top < q && at < q by { assert at == top[..|at|] == q[..|at|]; }
    assert n == 1 ==> top == x;
    StepOffChain(locs, rx, root, i, at, x, n, q);
    BarredStep(rules, rx, root, x, q);
    if up <= x {
      assert up == x[..|up|] && |x| - n + 1 <= |up|;
      MeantPrefix(rx, root, x, n, q, |x| - n);
      assert x[..|x| - n] == q[..|x| - n];
      ChainIncluded(locs, rx, root, i, at, x, n, |up|);
      NotBarredOnTheWayDown(rules, rx, root, x, up);
    } else {
      MeantPrefix(rx, root, x, n, q, |q| - 1);
      OffChain(locs, rx, root, i, at, x, n, up);
    }
  }

  lemma TreeAt(locs: seq<Location>, rx: RegexLibrary, root: FileNode, i: nat, at: Path, q: Path)
    requires LocationRoot(locs, rx, root, i, at) && NodeAt(root, q).Some?
    ensures GoodPath(q)
    ensures q != [] ==> NodeAt(root, q[..|q| - 1]).Some?
  {
    WellFormedAt(root, q);
    if q != [] { NodeAtPrefix(root, q, |q| - 1); }
  }

  lemma StepOffChain(locs: seq<Location>, rx: RegexLibrary, root: FileNode, i: nat, at: Path, x: Path, n: nat, q: Path)
    requires ExcludedAt(locs, rx, root, i, at, x, n) && GoodPath(x) && GoodPath(q) && at < q
    requires n > 1 && x[..|x| - n + 1] < q && !(q <= x) && !(x <= q) && Meant(rx, root, x, n, q)
    ensures ShownExcluded(StateAt(WithIncluded(locs, i, root, x, n), rx, root, q)) <==>
              || ShownExcluded(StateAt(WithIncluded(locs, i, root, x, n), rx, root, q[..|q| - 1]))
              || !NameMatch(locs[i].rules, AlwaysInclude, rx, root, q)
  {
    MadeAsMeant(rx, root, x, n, q);
    StepAfter(locs, rx, root, i, at, x, n, q);
  }

  lemma NotBarredOnTheWayDown(rules: seq<Rule>, rx: RegexLibrary, root: FileNode, x: Path, q: Path)
    requires q <= x
    ensures !BarredOnTheWay(rules, rx, root, x, q)
  {
    assert forall j :: 0 < j <= |q| ==> q[..j] <= x;
  }

  /**
   * Activating a node that is excluded by inheritance or by a regular expression: it, what is
   * above it and what is below it are not excluded; what is not at or below the highest
   * excluded node keeps its state; and anything else stays excluded unless older AlwaysInclude
   * rules match it and every node from the way to `x` down to it. So it is for each node `q` on the
   * way to which the expressions that are made find what they are meant to.
   */
  lemma IncludingShows(locs: seq<Location>, rx: RegexLibrary, root: FileNode, i: nat, at: Path, x: Path, n: nat, q: Path)
    requires ExcludedAt(locs, rx, root, i, at, x, n) && NodeAt(root, q).Some? && Meant(rx, root, x, n, q)
    ensures var locs' := WithIncluded(locs, i, root, x, n);
            var before, after := StateAt(locs, rx, root, q), StateAt(locs', rx, root, q);
            if q <= x || x <= q then !ShownExcluded(after)
            else if x[..|x| - n + 1] <= q then
              ShownExcluded(before) && (ShownExcluded(after) <==> BarredOnTheWay(locs[i].rules, rx, root, x, q))
            else after == before
  {
    hide *;
    Geometry(locs, rx, root, i, at, x, n);
    var top := x[..|x| - n + 1];
    TreeAt(locs, rx, root, i, at, q);
    if x <= q {
      BelowIncluded(locs, rx, root, i, at, x, n, q);
    } else if q <= x {
      assert q == x[..|q|];
      if |x| - n <= |q| {
        MeantPrefix(rx, root, x, n, q, |x| - n);
        assert q[..|x| - n] == x[..|x| - n];
        ChainIncluded(locs, rx, root, i, at, x, n, |q|);
      } else {
        assert !(top <= q);
        assert q <= x[..|x| - n] by { assert q == x[..|x| - n][..|q|]; }
        OutsideTopKept(locs, rx, root, i, at, x, n, q);
        GoodPrefix(x, |x| - n);
        AboveNotExcluded(locs, rx, root, i, at, x[..|x| - n], q);
      }
    } else if top <= q {
      OffChain(locs, rx, root, i, at, x, n, q);
      ExcludedBelow(locs, rx, root, i, at, top, q);
    } else {
      OutsideTopKept(locs, rx, root, i, at, x, n, q);
    }
  }

  /** Above a node that is not excluded, nothing is. */
  lemma AboveNotExcluded(locs: seq<Location>, rx: RegexLibrary, root: FileNode, i: nat, at: Path, p: Path, q: Path)
    requires LocationRoot(locs, rx, root, i, at) && at <= p && q <= p && GoodPath(p)
    requires !ShownExcluded(StateAt(locs, rx, root, p))
    ensures !ShownExcluded(StateAt(locs, rx, root, q))
  {
    LocationRootState(locs, rx, root, i, at);
    assert at == p[..|at|] && q == p[..|q|];
    if at < q {
      if ShownExcluded(StateAt(locs, rx, root, q)) {
        ExcludedBelow(locs, rx, root, i, at, q, p);
      }
    } else if q < at {
      assert q <= at[..|at| - 1] by { assert q == at[..|q|]; }
      OutsideAbove(locs, rx, root, at[..|at| - 1], q);
    }
  }

  lemma {:induction false} OutsideAbove(locs: seq<Location>, rx: RegexLibrary, root: FileNode, p: Path, q: Path)
    requires StateAt(locs, rx, root, p).location.None? && q <= p
    ensures StateAt(locs, rx, root, q).location.None?
    decreases |p|
  {
    if q != p {
      assert q <= p[..|p| - 1];
      OutsideAbove(locs, rx, root, p[..|p| - 1], q);
    }
  }

  // ----- the other activations -----

  /** Where neither the first match nor the nodes above are touched by an edit, the state stays. */
  lemma KeptByEdit(locs: seq<Location>, i: nat, rules: seq<Rule>, rx: RegexLibrary, root: FileNode, q: Path)
    requires i < |locs|
    requires forall sense :: FirstMatch(rules, sense, rx, FullPath(q), IsDir(root, q)) ==
                             FirstMatch(locs[i].rules, sense, rx, FullPath(q), IsDir(root, q))
    requires q != [] ==> StateAt(WithRules(locs, i, rules), rx, root, q[..|q| - 1]) == StateAt(locs, rx, root, q[..|q| - 1])
    ensures StateAt(WithRules(locs, i, rules), rx, root, q) == StateAt(locs, rx, root, q)
  {
    hide FirstMatch, Updated;
    UpdatedKept(locs, i, rules, rx, if q == [] then Outside else StateAt(locs, rx, root, q[..|q| - 1]), FullPath(q), IsDir(root, q));
  }

  /** An excluded node is excluded by the first rule that excludes the highest excluded node above it. */
  lemma {:induction false} ExcludedByTop(locs: seq<Location>, rx: RegexLibrary, root: FileNode, i: nat, at: Path, x: Path)
    requires LocationRoot(locs, rx, root, i, at) && at < x && GoodPath(x)
    requires ShownExcluded(StateAt(locs, rx, root, x))
    ensures var n := ExcludedHeight(locs, rx, root, x);
            && n > 0
            && StateAt(locs, rx, root, x).excludedBy ==
               FirstMatch(locs[i].rules, Exclude, rx, FullPath(x[..|x| - n + 1]), IsDir(root, x[..|x| - n + 1]))
    decreases |x|
  {
    hide StateAt, LocationRoot, FirstMatch, FullPath, IsDir, ShownExcluded;
    var up := x[..|x| - 1];
    LocationRootNotExcluded(locs, rx, root, i, at);
    assert at <= up && (|at| == |up| ==> at == up);
    ExclusionComesDown(locs, rx, root, i, at, x);
    if ShownExcluded(StateAt(locs, rx, root, up)) {
      assert at < up;
      GoodPrefix(x, |x| - 1);
      ExcludedByTop(locs, rx, root, i, at, up);
      var n := ExcludedHeight(locs, rx, root, up);
      assert up[..|up| - n + 1] == x[..|up| - n + 1];
    } else {
      assert ExcludedHeight(locs, rx, root, up) == 0;
      assert x[..|x|] == x;
    }
  }

  lemma LocationRootNotExcluded(locs: seq<Location>, rx: RegexLibrary, root: FileNode, i: nat, at: Path)
    requires LocationRoot(locs, rx, root, i, at)
    ensures !ShownExcluded(StateAt(locs, rx, root, at))
  {
    LocationRootState(locs, rx, root, i, at);
  }

  /** The excluding rule of an excluded node is inherited, or else the first that matches it. */
  lemma ExclusionComesDown(locs: seq<Location>, rx: RegexLibrary, root: FileNode, i: nat, at: Path, x: Path)
    requires LocationRoot(locs, rx, root, i, at) && at < x && GoodPath(x)
    requires ShownExcluded(StateAt(locs, rx, root, x))
    ensures var up := StateAt(locs, rx, root, x[..|x| - 1]);
            StateAt(locs, rx, root, x).excludedBy ==
            if ShownExcluded(up) then up.excludedBy
            else FirstMatch(locs[i].rules, Exclude, rx, FullPath(x), IsDir(root, x))
  {
    assert at <= x[..|x| - 1];
    LocationInherited(locs, rx, root, i, at, x[..|x| - 1]);
    FullPathInjective(x, []);
    WellFormedAt(root, at);
    FullPathInjective(x, at);
  }

  lemma {:induction false} FirstMatchOfRemoved(rules: seq<Rule>, r: Rule, sense: Sense, rx: RegexLibrary, file: string, isDir: bool)
    requires !Applies(r, sense, rx, file, isDir)
    ensures FirstMatch(Removed(rules, r), sense, rx, file, isDir) == FirstMatch(rules, sense, rx, file, isDir)
  {
    if rules != [] && rules[0] != r {
      FirstMatchOfRemoved(rules[1..], r, sense, rx, file, isDir);
      assert Removed(rules, r)[1..] == Removed(rules[1..], r);
    }
  }

  /** The rule matches neither `q` nor anything above it. */
  ghost predicate NotOnTheWay(r: Rule, rx: RegexLibrary, root: FileNode, q: Path) {
    forall sense, k :: 0 <= k <= |q| ==> !Applies(r, sense, rx, FullPath(q[..k]), IsDir(root, q[..k]))
  }

  lemma NotOnTheWayUp(r: Rule, rx: RegexLibrary, root: FileNode, q: Path)
    requires NotOnTheWay(r, rx, root, q)
    ensures forall sense :: !Applies(r, sense, rx, FullPath(q), IsDir(root, q))
    ensures q != [] ==> NotOnTheWay(r, rx, root, q[..|q| - 1])
  {
    hide Applies, FullPath, IsDir;
    assert q[..|q|] == q;
    if q != [] {
      var up := q[..|q| - 1];
      forall sense, k | 0 <= k <= |up|
        ensures !Applies(r, sense, rx, FullPath(up[..k]), IsDir(root, up[..k]))
      {
        assert up[..k] == q[..k];
      }
    }
  }

  lemma ExactRuleNotOnTheWay(r: Rule, rx: RegexLibrary, root: FileNode, x: Path, q: Path)
    requires r.kind.match_ == Exact && r.value == FullPath(x) && GoodPath(x) && GoodPath(q) && !(x <= q)
    ensures NotOnTheWay(r, rx, root, q)
  {
    forall sense, k | 0 <= k <= |q|
      ensures !Applies(r, sense, rx, FullPath(q[..k]), IsDir(root, q[..k]))
    {
      FullPathInjective(x, q[..k]);
    }
  }

  /** Removing a rule keeps the state of a node if it matches neither that node nor one above. */
  lemma {:induction false} KeptByRemoval(locs: seq<Location>, i: nat, r: Rule, rx: RegexLibrary, root: FileNode, q: Path)
    requires i < |locs| && NotOnTheWay(r, rx, root, q)
    ensures StateAt(WithRules(locs, i, Removed(locs[i].rules, r)), rx, root, q) == StateAt(locs, rx, root, q)
    decreases |q|
  {
    hide StateAt, FirstMatch, Applies, NotOnTheWay;
    NotOnTheWayUp(r, rx, root, q);
    forall sense {
      FirstMatchOfRemoved(locs[i].rules, r, sense, rx, FullPath(q), IsDir(root, q));
    }
    if q != [] {
      KeptByRemoval(locs, i, r, rx, root, q[..|q| - 1]);
    }
    KeptByEdit(locs, i, Removed(locs[i].rules, r), rx, root, q);
  }

  /**
   * Activating a node that an exact rule excludes removes that rule, once. The node is then included
   * exactly when the list does not hold the rule twice and no other rule excludes it, and nothing
   * that is not at or below it changes.
   */
  lemma RemovingExactRuleShows(locs: seq<Location>, rx: RegexLibrary, root: FileNode, i: nat, at: Path, x: Path, r: Rule)
    requires LocationRoot(locs, rx, root, i, at) && at < x && NodeAt(root, x).Some?
    requires ShownExcluded(StateAt(locs, rx, root, x)) && StateAt(locs, rx, root, x).excludedBy == Some(r)
    requires r.kind.match_ == Exact && r.value == FullPath(x)
    ensures var locs' := WithRules(locs, i, Removed(locs[i].rules, r));
            && (ShownExcluded(StateAt(locs', rx, root, x)) <==>
                multiset(locs[i].rules)[r] > 1 ||
                exists o :: o in locs[i].rules && o != r && Applies(o, Exclude, rx, FullPath(x), IsDir(root, x)))
            && forall q :: GoodPath(q) && !(x <= q) ==> StateAt(locs', rx, root, q) == StateAt(locs, rx, root, q)
  {
    var rules, locs' := locs[i].rules, WithRules(locs, i, Removed(locs[i].rules, r));
    WellFormedAt(root, x);
    ExactExclusionIsOwn(locs, rx, root, i, at, x, r);
    RemovedHasTheRest(rules, r);
    LocationRootKept(locs, i, Removed(rules, r), rx, root, at);
    ShownExcludedStep(locs, rx, root, i, at, x);
    ShownExcludedStep(locs', rx, root, i, at, x);
    forall q | GoodPath(q) && !(x <= q)
      ensures StateAt(locs', rx, root, q) == StateAt(locs, rx, root, q)
    {
      ExactRuleNotOnTheWay(r, rx, root, x, q);
      KeptByRemoval(locs, i, r, rx, root, q);
    }
    GoodPrefix(x, |x| - 1);
  }

  /** A node that is excluded by an exact rule for it has no excluded node above it. */
  lemma ExactExclusionIsOwn(locs: seq<Location>, rx: RegexLibrary, root: FileNode, i: nat, at: Path, x: Path, r: Rule)
    requires LocationRoot(locs, rx, root, i, at) && at < x && GoodPath(x)
    requires ShownExcluded(StateAt(locs, rx, root, x)) && StateAt(locs, rx, root, x).excludedBy == Some(r)
    requires r.kind.match_ == Exact && r.value == FullPath(x)
    ensures !ShownExcluded(StateAt(locs, rx, root, x[..|x| - 1]))
  {
    ExcludedByTop(locs, rx, root, i, at, x);
    ExcludedTop(locs, rx, root, i, at, x);
    var n := ExcludedHeight(locs, rx, root, x);
    hide StateAt, LocationRoot;
    GoodPrefix(x, |x| - n + 1);
    FullPathInjective(x, x[..|x| - n + 1]);
    assert n == 1;
  }

  lemma {:induction false} KeptByExcluding(locs: seq<Location>, i: nat, rx: RegexLibrary, root: FileNode, x: Path, q: Path)
    requires i < |locs| && GoodPath(x) && GoodPath(q) && !(x <= q)
    ensures StateAt(WithRules(locs, i, Added(locs[i].rules, ExactRule(Exclude, root, x))), rx, root, q) == StateAt(locs, rx, root, q)
    decreases |q|
  {
    var rules, r := locs[i].rules, ExactRule(Exclude, root, x);
    FullPathInjective(x, q);
    assert rules + [] == rules;
    forall sense
      ensures FirstMatch(Added(rules, r), sense, rx, FullPath(q), IsDir(root, q)) ==
              FirstMatch(rules, sense, rx, FullPath(q), IsDir(root, q))
    {
      FirstMatchOfExtension(rules, [r], sense, rx, FullPath(q), IsDir(root, q));
    }
    hide StateAt, FirstMatch;
    if q != [] {
      assert !(x <= q[..|q| - 1]);
      KeptByExcluding(locs, i, rx, root, x, q[..|q| - 1]);
    }
    KeptByEdit(locs, i, Added(rules, r), rx, root, q);
  }

  /** Activating an included node excludes it and all that is below it, and changes nothing else. */
  lemma ExcludingShows(locs: seq<Location>, rx: RegexLibrary, root: FileNode, i: nat, at: Path, x: Path, q: Path)
    requires LocationRoot(locs, rx, root, i, at) && at < x && NodeAt(root, x).Some? && NodeAt(root, q).Some?
    requires StateAt(locs, rx, root, x).excludedBy.None? && StateAt(locs, rx, root, x).includedBy.None?
    ensures var locs' := WithRules(locs, i, Added(locs[i].rules, ExactRule(Exclude, root, x)));
            if x <= q then ShownExcluded(StateAt(locs', rx, root, q))
            else StateAt(locs', rx, root, q) == StateAt(locs, rx, root, q)
  {
    var rules, r := locs[i].rules, ExactRule(Exclude, root, x);
    var now := Added(rules, r);
    var locs' := WithRules(locs, i, now);
    WellFormedAt(root, x);
    WellFormedAt(root, q);
    if !(x <= q) {
      KeptByExcluding(locs, i, rx, root, x, q);
    } else {
      LocationRootKept(locs, i, now, rx, root, at);
      NoAlwaysIncludeMatch(locs, rx, root, i, at, x);
      ExactRuleApplies(root, rx, Exclude, x, x);
      assert NameMatch(now, Exclude, rx, root, x) && !NameMatch(now, AlwaysInclude, rx, root, x);
      ShownExcludedStep(locs', rx, root, i, at, x);
      ExcludedBelow(locs', rx, root, i, at, x, q);
    }
  }

  /** A node below no excluded node that is not shown as always included matches no AlwaysInclude rule. */
  lemma NoAlwaysIncludeMatch(locs: seq<Location>, rx: RegexLibrary, root: FileNode, i: nat, at: Path, x: Path)
    requires LocationRoot(locs, rx, root, i, at) && at < x && GoodPath(x)
    requires !ShownExcluded(StateAt(locs, rx, root, x[..|x| - 1]))
    requires StateAt(locs, rx, root, x).includedBy.None?
    ensures !NameMatch(locs[i].rules, AlwaysInclude, rx, root, x)
  {
    var up := x[..|x| - 1];
    assert at <= up;
    LocationInherited(locs, rx, root, i, at, up);
    FullPathInjective(x, []);
    WellFormedAt(root, at);
    FullPathInjective(x, at);
    FirstMatchIsAnyMatch(locs[i].rules, AlwaysInclude, rx, FullPath(x), IsDir(root, x));
  }
}
