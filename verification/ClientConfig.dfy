/**
 * The backup locations in the configuration file: how they are written and read back
 * (src/ClientConfig.cc, and the list construction in src/Location.cc), and when the
 * configuration counts as clean.
 */
module ClientConfig {
  import opened Common
  import opened ConfigText
  import opened LocalPath
  import opened ExcludeRules
  import opened BackupTree

  /** The eight kinds of rules, in the order in which they are read. */
  const TYPES: seq<RuleType> := [
    RuleType(Exclude, ForDir, Exact), RuleType(Exclude, ForDir, Regex),
    RuleType(Exclude, ForFile, Exact), RuleType(Exclude, ForFile, Regex),
    RuleType(AlwaysInclude, ForDir, Exact), RuleType(AlwaysInclude, ForDir, Regex),
    RuleType(AlwaysInclude, ForFile, Exact), RuleType(AlwaysInclude, ForFile, Regex)]

  function TypeName(t: RuleType): string {
    (if t.sense == Exclude then "Exclude" else "AlwaysInclude") +
    (if t.fileDir == ForFile then "File" else "Dir") +
    (if t.match_ == Exact then "" else "sRegex")
  }

  // ----- writing and reading one list of rules -----

  function LinesOf(rules: seq<Rule>): (lines: seq<Line>)
    ensures |lines| == |rules|
    ensures forall i :: 0 <= i < |rules| ==> lines[i] == Line(TypeName(rules[i].kind), rules[i].value)
  {
    if rules == [] then [] else [Line(TypeName(rules[0].kind), rules[0].value)] + LinesOf(rules[1..])
  }

  /** The values of a key, in file order. */
  function KeyValues(lines: seq<Line>, key: string): seq<string> {
    if lines == [] then []
    else (if lines[0].key == key then [lines[0].value] else []) + KeyValues(lines[1..], key)
  }

  function RulesFor(t: RuleType, values: seq<string>): (rules: seq<Rule>)
    ensures |rules| == |values|
    ensures forall i :: 0 <= i < |values| ==> rules[i] == Rule(t, values[i])
  {
    if values == [] then [] else [Rule(t, values[0])] + RulesFor(t, values[1..])
  }

  function ReadType(lines: seq<Line>, t: RuleType): seq<Rule> {
    var values := KeyValues(lines, TypeName(t));
    if values == [] then [] else RulesFor(t, Split(Join(values, SEPARATOR), SEPARATOR))
  }

  function ReadTypes(lines: seq<Line>, types: seq<RuleType>): seq<Rule> {
    if types == [] then [] else ReadType(lines, types[0]) + ReadTypes(lines, types[1..])
  }

  lemma ReadTypesStep(lines: seq<Line>, types: seq<RuleType>, i: nat)
    requires i <= |types|
    ensures i < |types| ==>
              ReadTypes(lines, types[i..]) ==
              (var values := KeyValues(lines, TypeName(types[i]));
               if values == [] then [] else RulesFor(types[i], Split(Join(values, SEPARATOR), SEPARATOR))) + ReadTypes(lines, types[i + 1..])
    ensures i == |types| ==> ReadTypes(lines, types[i..]) == []
  {
    if i < |types| { assert types[i..][1..] == types[i + 1..]; }
  }

  function ReadRules(lines: seq<Line>): seq<Rule> {
    ReadTypes(lines, TYPES)
  }

  // ----- what comes back -----

  function OfType(rules: seq<Rule>, t: RuleType): seq<Rule> {
    if rules == [] then []
    else (if rules[0].kind == t then [rules[0]] else []) + OfType(rules[1..], t)
  }

  function GroupedBy(rules: seq<Rule>, types: seq<RuleType>): seq<Rule> {
    if types == [] then [] else OfType(rules, types[0]) + GroupedBy(rules, types[1..])
  }

  /** The rules grouped by kind, each kind in its old order. */
  function Grouped(rules: seq<Rule>): seq<Rule> {
    GroupedBy(rules, TYPES)
  }

  ghost predicate SeparableRules(rules: seq<Rule>) {
    forall r :: r in rules ==> SEPARATOR !in r.value
  }

  lemma TypeNamesDiffer(a: RuleType, b: RuleType)
    ensures TypeName(a) == TypeName(b) <==> a == b
  {
    assert TypeName(a)[0] == if a.sense == Exclude then 'E' else 'A';
    assert TypeName(b)[0] == if b.sense == Exclude then 'E' else 'A';
    if a.sense == b.sense {
      var k := if a.sense == Exclude then |"Exclude"| else |"AlwaysInclude"|;
      assert TypeName(a)[k] == if a.fileDir == ForFile then 'F' else 'D';
      assert TypeName(b)[k] == if b.fileDir == ForFile then 'F' else 'D';
      if a.fileDir == b.fileDir {
        var l := k + if a.fileDir == ForFile then 4 else 3;
        assert |TypeName(a)| == l + if a.match_ == Exact then 0 else 6;
        assert |TypeName(b)| == l + if b.match_ == Exact then 0 else 6;
      }
    }
  }

  lemma {:induction false} KeyValuesOfLines(rules: seq<Rule>, t: RuleType)
    ensures RulesFor(t, KeyValues(LinesOf(rules), TypeName(t))) == OfType(rules, t)
    ensures SeparableRules(rules) ==> Separable(KeyValues(LinesOf(rules), TypeName(t)), SEPARATOR)
  {
    if rules != [] {
      KeyValuesOfLines(rules[1..], t);
      TypeNamesDiffer(rules[0].kind, t);
      assert LinesOf(rules)[1..] == LinesOf(rules[1..]);
      assert rules == [rules[0]] + rules[1..];
      var rest := KeyValues(LinesOf(rules[1..]), TypeName(t));
      if rules[0].kind == t {
        assert ([rules[0].value] + rest)[1..] == rest;
        assert Rule(t, rules[0].value) == rules[0];
      } else {
        assert KeyValues(LinesOf(rules), TypeName(t)) == rest;
      }
    }
  }

  lemma ReadTypeOfLines(rules: seq<Rule>, t: RuleType)
    ensures |ReadType(LinesOf(rules), t)| >= |OfType(rules, t)|
    ensures ReadType(LinesOf(rules), t) == OfType(rules, t) || |ReadType(LinesOf(rules), t)| > |OfType(rules, t)|
    ensures SeparableRules(rules) ==> ReadType(LinesOf(rules), t) == OfType(rules, t)
    ensures !SeparableRules(OfType(rules, t)) ==> |ReadType(LinesOf(rules), t)| > |OfType(rules, t)|
  {
    var values := KeyValues(LinesOf(rules), TypeName(t));
    KeyValuesOfLines(rules, t);
    if values != [] {
      SplitJoinLength(values, SEPARATOR);
      if Separable(values, SEPARATOR) {
        SplitJoin(values, SEPARATOR);
      }
      if !SeparableRules(OfType(rules, t)) {
        var r :| r in OfType(rules, t) && SEPARATOR in r.value;
        var i :| 0 <= i < |OfType(rules, t)| && OfType(rules, t)[i] == r;
        assert values[i] == r.value && values[i] in values;
      }
    }
  }

  lemma {:induction false} ReadTypesOfLines(rules: seq<Rule>, types: seq<RuleType>)
    ensures SeparableRules(rules) ==> ReadTypes(LinesOf(rules), types) == GroupedBy(rules, types)
    ensures |ReadTypes(LinesOf(rules), types)| >= |GroupedBy(rules, types)|
    ensures (exists t :: t in types && !SeparableRules(OfType(rules, t))) ==>
              |ReadTypes(LinesOf(rules), types)| > |GroupedBy(rules, types)|
  {
    if types != [] {
      ReadTypeOfLines(rules, types[0]);
      ReadTypesOfLines(rules, types[1..]);
      assert types == [types[0]] + types[1..];
    }
  }

  lemma {:induction false} OfTypeMembers(rules: seq<Rule>, t: RuleType)
    ensures forall r :: r in OfType(rules, t) <==> r in rules && r.kind == t
  {
    if rules != [] {
      OfTypeMembers(rules[1..], t);
      assert rules == [rules[0]] + rules[1..];
    }
  }

  lemma EveryTypeListed(t: RuleType)
    ensures t in TYPES
  {
    var i := (if t.sense == Exclude then 0 else 4) + (if t.fileDir == ForDir then 0 else 2) + (if t.match_ == Exact then 0 else 1);
    assert TYPES[i] == t;
  }

  /** Saving and reading a list back groups it by kind, exactly when no value holds the separator. */
  lemma ReloadedIsGrouped(rules: seq<Rule>)
    ensures ReadRules(LinesOf(rules)) == Grouped(rules) <==> SeparableRules(rules)
  {
    ReadTypesOfLines(rules, TYPES);
    if !SeparableRules(rules) {
      var r :| r in rules && SEPARATOR in r.value;
      EveryTypeListed(r.kind);
      OfTypeMembers(rules, r.kind);
      assert r.kind in TYPES && !SeparableRules(OfType(rules, r.kind));
    }
  }

  /** A value with the separator in it comes back as two rules. */
  lemma SeparatorMakesTwo(t: RuleType, a: string, b: string)
    requires SEPARATOR !in a && SEPARATOR !in b
    ensures ReadType(LinesOf([Rule(t, a + [SEPARATOR] + b)]), t) == [Rule(t, a), Rule(t, b)]
    ensures var rules := [Rule(t, a + [SEPARATOR] + b)]; ReadRules(LinesOf(rules)) != Grouped(rules)
  {
    var value := a + [SEPARATOR] + b;
    var rules := [Rule(t, value)];
    ReloadedIsGrouped(rules);
    assert SEPARATOR in value by { assert value[|a|] == SEPARATOR; }
    assert !SeparableRules(rules) by { assert rules[0] in rules; }
    SplitFirst(a, SEPARATOR, b);
    assert LinesOf(rules)[1..] == [] && KeyValues(LinesOf(rules), TypeName(t)) == [value];
    assert Split(value, SEPARATOR) == [a, b] && [a, b][1..] == [b] && [b][1..] == [];
  }

  // ----- grouping keeps what matters -----

  lemma {:induction false} OfTypeAppend(a: seq<Rule>, b: seq<Rule>, t: RuleType)
    ensures OfType(a + b, t) == OfType(a, t) + OfType(b, t)
  {
    if a == [] {
      assert a + b == b;
    } else {
      assert (a + b)[0] == a[0] && (a + b)[1..] == a[1..] + b;
      OfTypeAppend(a[1..], b, t);
    }
  }

  lemma {:induction false} OfTypeTwice(rules: seq<Rule>, t: RuleType, u: RuleType)
    ensures OfType(OfType(rules, t), u) == if t == u then OfType(rules, t) else []
  {
    if rules != [] {
      OfTypeTwice(rules[1..], t, u);
      if rules[0].kind == t {
        assert OfType(rules, t)[1..] == OfType(rules[1..], t);
      } else {
        assert OfType(rules, t) == OfType(rules[1..], t);
      }
    }
  }

  ghost predicate Distinct(types: seq<RuleType>) {
    forall i, j :: 0 <= i < j < |types| ==> types[i] != types[j]
  }

  lemma {:induction false} OfTypeOfGrouped(rules: seq<Rule>, types: seq<RuleType>, t: RuleType)
    requires Distinct(types)
    ensures OfType(GroupedBy(rules, types), t) == if t in types then OfType(rules, t) else []
  {
    if types != [] {
      var rest := types[1..];
      OfTypeAppend(OfType(rules, types[0]), GroupedBy(rules, rest), t);
      OfTypeTwice(rules, types[0], t);
      OfTypeOfGrouped(rules, rest, t);
      assert types == [types[0]] + rest;
      assert forall i :: 0 <= i < |rest| ==> rest[i] == types[i + 1];
      assert types[0] !in rest;
    }
  }

  lemma {:induction false} GroupedByDependsOnTypes(a: seq<Rule>, b: seq<Rule>, types: seq<RuleType>)
    requires forall t :: t in types ==> OfType(a, t) == OfType(b, t)
    ensures GroupedBy(a, types) == GroupedBy(b, types)
  {
    if types != [] {
      assert types == [types[0]] + types[1..];
      GroupedByDependsOnTypes(a, b, types[1..]);
    }
  }

  lemma KindsDiffer()
    ensures Distinct(TYPES)
  {
  }

  /** Within each kind, grouping changes nothing. */
  lemma GroupingIsStable(rules: seq<Rule>, t: RuleType)
    ensures OfType(Grouped(rules), t) == OfType(rules, t)
  {
    hide Distinct, OfType, GroupedBy;
    EveryTypeListed(t);
    KindsDiffer();
    OfTypeOfGrouped(rules, TYPES, t);
  }

  /** Saving and loading a second time changes nothing more. */
  lemma GroupingTwice(rules: seq<Rule>)
    ensures Grouped(Grouped(rules)) == Grouped(rules)
  {
    forall t | t in TYPES
      ensures OfType(Grouped(rules), t) == OfType(rules, t)
    {
      GroupingIsStable(rules, t);
    }
    GroupedByDependsOnTypes(Grouped(rules), rules, TYPES);
  }

  lemma GroupedMembers(rules: seq<Rule>, r: Rule)
    ensures r in Grouped(rules) <==> r in rules
  {
    GroupingIsStable(rules, r.kind);
    OfTypeMembers(rules, r.kind);
    OfTypeMembers(Grouped(rules), r.kind);
  }

  /** Grouping changes the state of no path, and no answer of the compiled exclude list. */
  lemma GroupingKeepsMeaning(rules: seq<Rule>, locPath: string, rx: RegexLibrary, file: string, isDir: bool, before: Verdict)
    ensures var v, w := Judge(locPath, rules, rx, file, isDir, before), Judge(locPath, Grouped(rules), rx, file, isDir, before);
            v.state == w.state && v.matched == w.matched
    ensures BoxListOf(Grouped(rules), rx, isDir).Some? <==> BoxListOf(rules, rx, isDir).Some?
    ensures BoxListOf(rules, rx, isDir).Some? ==>
              (BoxExcludes(BoxListOf(Grouped(rules), rx, isDir).value, rx, file) <==>
               BoxExcludes(BoxListOf(rules, rx, isDir).value, rx, file))
  {
    hide Grouped, FirstMatch, AnyMatch, BoxListOf, Listed;
    AnyMatchOfGrouped(rules, rx, file, isDir);
    forall r
      ensures r in Grouped(rules) <==> r in rules
    {
      GroupedMembers(rules, r);
    }
    BoxListExists(rules, rx, isDir);
    BoxListExists(Grouped(rules), rx, isDir);
    if BoxListOf(rules, rx, isDir).Some? {
      BoxListMatches(rules, rx, isDir, file);
      BoxListMatches(Grouped(rules), rx, isDir, file);
    }
  }

  lemma AnyMatchOfGrouped(rules: seq<Rule>, rx: RegexLibrary, file: string, isDir: bool)
    ensures forall sense :: AnyMatch(Grouped(rules), sense, rx, file, isDir) <==> AnyMatch(rules, sense, rx, file, isDir)
    ensures forall sense :: FirstMatch(Grouped(rules), sense, rx, file, isDir).Some? <==> FirstMatch(rules, sense, rx, file, isDir).Some?
  {
    hide Grouped;
    forall r
      ensures r in Grouped(rules) <==> r in rules
    {
      GroupedMembers(rules, r);
    }
    forall sense
      ensures FirstMatch(Grouped(rules), sense, rx, file, isDir).Some? <==> FirstMatch(rules, sense, rx, file, isDir).Some?
    {
      FirstMatchIsAnyMatch(rules, sense, rx, file, isDir);
      FirstMatchIsAnyMatch(Grouped(rules), sense, rx, file, isDir);
    }
  }

  // ----- the whole list of locations -----

  /** The lines of a block, with the path before the rules. */
  function BlockLines(path: string, rules: seq<Rule>): seq<Line> {
    [Line("Path", path)] + LinesOf(rules)
  }

  function BlocksOf(locs: seq<Location>): (blocks: seq<Block>)
    ensures |blocks| == |locs|
    ensures forall i :: 0 <= i < |locs| ==> blocks[i] == Block(locs[i].name, BlockLines(locs[i].path, locs[i].rules))
  {
    if locs == [] then [] else [Block(locs[0].name, BlockLines(locs[0].path, locs[0].rules))] + BlocksOf(locs[1..])
  }

  /** The first block with this name; that is the one that the configuration object gives for it. */
  function FirstNamed(blocks: seq<Block>, name: string): (r: Option<Block>)
    ensures r.Some? ==> r.value in blocks && r.value.name == name
    ensures r.None? ==> forall b :: b in blocks ==> b.name != name
  {
    if blocks == [] then None
    else if blocks[0].name == name then Some(blocks[0])
    else FirstNamed(blocks[1..], name)
  }

  /** The location that a block stands for; a block without a path is an error. */
  function LocationIn(b: Block): Option<Location> {
    var paths := KeyValues(b.lines, "Path");
    if paths == [] then None else Some(Location(b.name, Join(paths, SEPARATOR), ReadRules(b.lines)))
  }

  /** A location for each block in `todo`, each made from the first of `blocks` that has its name. */
  function LocationsNamed(blocks: seq<Block>, todo: seq<Block>): (r: Option<seq<Location>>)
    ensures r.Some? ==> |r.value| == |todo| && forall i :: 0 <= i < |todo| ==>
              FirstNamed(blocks, todo[i].name).Some? &&
              LocationIn(FirstNamed(blocks, todo[i].name).value) == Some(r.value[i])
  {
    if todo == [] then Some([])
    else
      var b, more := FirstNamed(blocks, todo[0].name), LocationsNamed(blocks, todo[1..]);
      if b.None? || LocationIn(b.value).None? || more.None? then None
      else Some([LocationIn(b.value).value] + more.value)
  }

  function LocationsIn(blocks: seq<Block>): Option<seq<Location>> {
    LocationsNamed(blocks, blocks)
  }

  lemma {:induction false} LocationsNamedExist(blocks: seq<Block>, todo: seq<Block>)
    ensures LocationsNamed(blocks, todo).Some? <==>
            forall b :: b in todo ==> FirstNamed(blocks, b.name).Some? && LocationIn(FirstNamed(blocks, b.name).value).Some?
  {
    if todo != [] {
      LocationsNamedExist(blocks, todo[1..]);
      assert todo == [todo[0]] + todo[1..];
    }
  }

  /** The text of the file that locations are saved to, and the locations that a file gives, if it can be read. */
  function Saved(locs: seq<Location>): string {
    FileText(BlocksOf(locs))
  }

  function Loaded(file: string): Option<seq<Location>> {
    var blocks := ReadFile(file);
    if blocks.None? then None else LocationsIn(blocks.value)
  }

  function AllGrouped(locs: seq<Location>): (r: seq<Location>)
    ensures |r| == |locs|
    ensures forall i :: 0 <= i < |locs| ==> r[i] == locs[i].(rules := Grouped(locs[i].rules))
  {
    if locs == [] then [] else [locs[0].(rules := Grouped(locs[0].rules))] + AllGrouped(locs[1..])
  }

  // ----- when they come back -----

  ghost predicate AllSeparable(locs: seq<Location>) {
    forall i :: 0 <= i < |locs| ==> SeparableRules(locs[i].rules)
  }

  ghost predicate PlainLocation(l: Location) {
    PlainName(l.name) && NEW_LINE !in l.path && forall r :: r in l.rules ==> NEW_LINE !in r.value
  }

  /** No name, path or value holds a line break, and no name an equals sign. */
  ghost predicate AllPlain(locs: seq<Location>) {
    forall i :: 0 <= i < |locs| ==> PlainLocation(locs[i])
  }

  /** Locations of one name are the same once their rules are grouped. */
  ghost predicate NamesAgree(locs: seq<Location>) {
    forall i, j :: 0 <= i < |locs| && 0 <= j < |locs| && locs[i].name == locs[j].name ==> AllGrouped(locs)[i] == AllGrouped(locs)[j]
  }

  lemma TypeNameIsPlain(t: RuleType)
    ensures NEW_LINE !in TypeName(t) && '=' !in TypeName(t) && TypeName(t) != "Path"
  {
    assert TypeName(t)[0] == if t.sense == Exclude then 'E' else 'A';
  }

  lemma {:induction false} KeyValuesSkip(l: Line, lines: seq<Line>, key: string)
    requires l.key != key
    ensures KeyValues([l] + lines, key) == KeyValues(lines, key)
  {
    assert ([l] + lines)[1..] == lines;
  }

  lemma {:induction false} ReadTypesSkip(l: Line, lines: seq<Line>, types: seq<RuleType>)
    requires l.key == "Path"
    ensures ReadTypes([l] + lines, types) == ReadTypes(lines, types)
  {
    if types != [] {
      TypeNameIsPlain(types[0]);
      KeyValuesSkip(l, lines, TypeName(types[0]));
      ReadTypesSkip(l, lines, types[1..]);
    }
  }

  lemma {:induction false} NoPathAmongRules(rules: seq<Rule>)
    ensures KeyValues(LinesOf(rules), "Path") == []
  {
    if rules != [] {
      TypeNameIsPlain(rules[0].kind);
      NoPathAmongRules(rules[1..]);
      assert LinesOf(rules)[1..] == LinesOf(rules[1..]);
    }
  }

  /** A block made for a location is read as that location, with the rules that its lines give. */
  lemma BlockIsLocation(l: Location)
    ensures LocationIn(Block(l.name, BlockLines(l.path, l.rules))) == Some(Location(l.name, l.path, ReadRules(LinesOf(l.rules))))
  {
    var first, rest := Line("Path", l.path), LinesOf(l.rules);
    ReadTypesSkip(first, rest, TYPES);
    NoPathAmongRules(l.rules);
    assert ([first] + rest)[1..] == rest;
    assert KeyValues([first] + rest, "Path") == [l.path];
  }

  lemma BlockIsPlain(l: Location)
    ensures GoodKeys(BlockLines(l.path, l.rules))
    ensures PlainLocation(l) ==> forall x :: x in BlockLines(l.path, l.rules) ==> PlainLine(x)
  {
    var lines := BlockLines(l.path, l.rules);
    forall k | 0 <= k < |lines|
      ensures '=' !in lines[k].key && (PlainLocation(l) ==> PlainLine(lines[k]))
    {
      if k > 0 {
        TypeNameIsPlain(l.rules[k - 1].kind);
        assert lines[k] == LinesOf(l.rules)[k - 1];
      }
    }
  }

  function FirstLocationNamed(locs: seq<Location>, name: string): (r: Option<Location>)
    ensures r.Some? ==> r.value in locs && r.value.name == name
    ensures r.None? ==> forall l :: l in locs ==> l.name != name
  {
    if locs == [] then None
    else if locs[0].name == name then Some(locs[0])
    else FirstLocationNamed(locs[1..], name)
  }

  lemma {:induction false} FirstBlockOfLocations(locs: seq<Location>, name: string)
    ensures var l := FirstLocationNamed(locs, name);
            FirstNamed(BlocksOf(locs), name) == if l.None? then None else Some(Block(l.value.name, BlockLines(l.value.path, l.value.rules)))
  {
    if locs != [] {
      assert BlocksOf(locs)[1..] == BlocksOf(locs[1..]);
      FirstBlockOfLocations(locs[1..], name);
    }
  }

  /** What is read for a location whose block is found. */
  function Reread(l: Location): Location {
    l.(rules := ReadRules(LinesOf(l.rules)))
  }

  /** Without line breaks, and equals signs in names, the file is read, and for each location the first one of its name comes back. */
  lemma FirstOfNameComesBack(locs: seq<Location>)
    requires AllPlain(locs)
    ensures var back := Loaded(Saved(locs));
            back.Some? && |back.value| == |locs| && forall i :: 0 <= i < |locs| ==>
              FirstLocationNamed(locs, locs[i].name).Some? && back.value[i] == Reread(FirstLocationNamed(locs, locs[i].name).value)
  {
    hide ReadFile, FileText, ReadRules, BlockLines, KeyValues;
    var blocks := BlocksOf(locs);
    forall i | 0 <= i < |locs|
      ensures PlainName(blocks[i].name) && GoodKeys(blocks[i].lines) && forall l :: l in blocks[i].lines ==> PlainLine(l)
    {
      assert PlainLocation(locs[i]);
      BlockIsPlain(locs[i]);
    }
    FileIsRead(blocks);
    forall i | 0 <= i < |locs|
      ensures FirstLocationNamed(locs, locs[i].name).Some?
      ensures FirstNamed(blocks, blocks[i].name).Some?
      ensures LocationIn(FirstNamed(blocks, blocks[i].name).value) == Some(Reread(FirstLocationNamed(locs, locs[i].name).value))
    {
      assert locs[i] in locs;
      FirstBlockOfLocations(locs, locs[i].name);
      BlockIsLocation(FirstLocationNamed(locs, locs[i].name).value);
    }
    LocationsNamedExist(blocks, blocks);
  }

  lemma {:induction false} KeyValuesMembers(lines: seq<Line>, key: string, c: char)
    requires forall l :: l in lines ==> c !in l.value
    ensures Separable(KeyValues(lines, key), c)
  {
    if lines != [] { KeyValuesMembers(lines[1..], key, c); }
  }

  /** No value that is read holds the separator, or a character that no line holds. */
  lemma {:induction false} ReadValues(lines: seq<Line>, types: seq<RuleType>, c: char)
    requires c != SEPARATOR && forall l :: l in lines ==> c !in l.value
    ensures forall r :: r in ReadTypes(lines, types) ==> SEPARATOR !in r.value && c !in r.value
  {
    if types != [] {
      ReadValues(lines, types[1..], c);
      var values := KeyValues(lines, TypeName(types[0]));
      KeyValuesMembers(lines, TypeName(types[0]), c);
      if values != [] {
        JoinHolds(values, SEPARATOR, c);
        PartsOf(Join(values, SEPARATOR), SEPARATOR, c);
      }
    }
  }

  lemma LocationInIsPlain(b: Block)
    requires LocationIn(b).Some? && PlainName(b.name) && forall l :: l in b.lines ==> PlainLine(l)
    ensures PlainLocation(LocationIn(b).value) && SeparableRules(LocationIn(b).value.rules)
  {
    KeyValuesMembers(b.lines, "Path", NEW_LINE);
    JoinHolds(KeyValues(b.lines, "Path"), SEPARATOR, NEW_LINE);
    ReadValues(b.lines, TYPES, NEW_LINE);
  }

  lemma {:induction false} OfTypeOfKind(rules: seq<Rule>, t: RuleType, u: RuleType)
    requires forall r :: r in rules ==> r.kind == t
    ensures OfType(rules, u) == if t == u then rules else []
  {
    if rules != [] {
      OfTypeOfKind(rules[1..], t, u);
      assert rules == [rules[0]] + rules[1..];
    }
  }

  lemma {:induction false} OfTypeOfRead(lines: seq<Line>, types: seq<RuleType>, t: RuleType)
    requires Distinct(types)
    ensures OfType(ReadTypes(lines, types), t) == if t in types then ReadType(lines, t) else []
  {
    if types != [] {
      var rest := types[1..];
      OfTypeAppend(ReadType(lines, types[0]), ReadTypes(lines, rest), t);
      OfTypeOfKind(ReadType(lines, types[0]), types[0], t);
      assert forall i :: 0 <= i < |rest| ==> rest[i] == types[i + 1];
      OfTypeOfRead(lines, rest, t);
      assert types == [types[0]] + rest;
      assert types[0] !in rest;
    }
  }

  lemma {:induction false} GroupedByOfRead(rules: seq<Rule>, lines: seq<Line>, types: seq<RuleType>)
    requires forall t :: t in types ==> OfType(rules, t) == ReadType(lines, t)
    ensures GroupedBy(rules, types) == ReadTypes(lines, types)
  {
    if types != [] {
      assert types == [types[0]] + types[1..];
      GroupedByOfRead(rules, lines, types[1..]);
    }
  }

  /** Rules that have been read are grouped. */
  lemma ReadRulesAreGrouped(lines: seq<Line>)
    ensures Grouped(ReadRules(lines)) == ReadRules(lines)
  {
    hide Distinct, OfType, GroupedBy, ReadTypes, ReadType;
    KindsDiffer();
    forall t | t in TYPES
      ensures OfType(ReadRules(lines), t) == ReadType(lines, t)
    {
      OfTypeOfRead(lines, TYPES, t);
    }
    GroupedByOfRead(ReadRules(lines), lines, TYPES);
  }

  lemma LoadedIsTidy(file: string)
    requires Loaded(file).Some?
    ensures var locs := Loaded(file).value; AllSeparable(locs) && AllPlain(locs) && NamesAgree(locs) && AllGrouped(locs) == locs
  {
    hide ReadFile, ReadRules, KeyValues, Grouped;
    var blocks, locs := ReadFile(file).value, Loaded(file).value;
    ReadFileIsPlain(file);
    forall i | 0 <= i < |locs|
      ensures PlainLocation(locs[i]) && SeparableRules(locs[i].rules)
      ensures AllGrouped(locs)[i] == locs[i] && locs[i].name == blocks[i].name
    {
      var b := FirstNamed(blocks, blocks[i].name).value;
      LocationInIsPlain(b);
      ReadRulesAreGrouped(b.lines);
    }
  }

  /**
   * Saved locations come back, each with its rules grouped, if and only if no value holds the
   * separator, nothing holds a line break, no name an equals sign, and locations of one name are alike.
   */
  lemma SavedLocationsComeBackGrouped(locs: seq<Location>)
    ensures Loaded(Saved(locs)) == Some(AllGrouped(locs)) <==> AllSeparable(locs) && AllPlain(locs) && NamesAgree(locs)
  {
    hide Loaded, Saved, Grouped, ReadRules, LinesOf;
    if Loaded(Saved(locs)) == Some(AllGrouped(locs)) {
      LoadedIsTidy(Saved(locs));
      GroupedIsPlain(locs);
    }
    if AllPlain(locs) {
      FirstOfNameComesBack(locs);
      forall i | 0 <= i < |locs| { ReloadedIsGrouped(locs[i].rules); }
      if Loaded(Saved(locs)) == Some(AllGrouped(locs)) {
        GroupedIsSeparable(locs);
      }
      if AllSeparable(locs) && NamesAgree(locs) {
        forall i | 0 <= i < |locs|
          ensures Reread(FirstLocationNamed(locs, locs[i].name).value) == AllGrouped(locs)[i]
        {
          var k :| 0 <= k < |locs| && locs[k] == FirstLocationNamed(locs, locs[i].name).value;
          assert AllGrouped(locs)[k] == AllGrouped(locs)[i] && SeparableRules(locs[k].rules);
          ReloadedIsGrouped(locs[k].rules);
        }
        assert Loaded(Saved(locs)).value == AllGrouped(locs);
      }
    }
  }

  lemma GroupedIsPlain(locs: seq<Location>)
    ensures AllPlain(AllGrouped(locs)) <==> AllPlain(locs)
  {
    forall i | 0 <= i < |locs|
      ensures PlainLocation(AllGrouped(locs)[i]) <==> PlainLocation(locs[i])
    {
      forall r { GroupedMembers(locs[i].rules, r); }
    }
    if AllPlain(AllGrouped(locs)) {
      forall i | 0 <= i < |locs| ensures PlainLocation(locs[i]) { assert PlainLocation(AllGrouped(locs)[i]); }
    }
  }

  lemma GroupedIsSeparable(locs: seq<Location>)
    ensures AllSeparable(AllGrouped(locs)) <==> AllSeparable(locs)
  {
    forall i | 0 <= i < |locs|
      ensures SeparableRules(AllGrouped(locs)[i].rules) <==> SeparableRules(locs[i].rules)
    {
      forall r { GroupedMembers(locs[i].rules, r); }
    }
  }

  /** Whatever file has been loaded, saving and loading what it gave changes nothing. */
  lemma SecondSaveIsIdentity(file: string)
    requires Loaded(file).Some?
    ensures Loaded(Saved(Loaded(file).value)) == Loaded(file)
  {
    LoadedIsTidy(file);
    SavedLocationsComeBackGrouped(Loaded(file).value);
  }

  /** Of two locations with one name only the first comes back, in both places. */
  lemma NamesakeIsLost(name: string, path: string, other: string)
    requires PlainName(name) && NEW_LINE !in path && NEW_LINE !in other && path != other
    ensures var locs := [Location(name, path, []), Location(name, other, [])];
            Loaded(Saved(locs)) == Some([locs[0], locs[0]]) && Loaded(Saved(locs)) != Some(AllGrouped(locs))
  {
    hide Loaded, Saved, ReadRules, Grouped, LinesOf, FirstLocationNamed, AllGrouped;
    var locs := [Location(name, path, []), Location(name, other, [])];
    assert PlainLocation(locs[0]) && PlainLocation(locs[1]);
    NothingReread();
    FirstOfTwo(locs);
    FirstOfNameComesBack(locs);
    assert AllGrouped(locs)[1].path == other;
    assert Loaded(Saved(locs)).value == [locs[0], locs[0]];
  }

  lemma FirstOfTwo(locs: seq<Location>)
    requires |locs| == 2
    ensures FirstLocationNamed(locs, locs[0].name) == Some(locs[0])
  {
  }

  lemma NothingReread()
    ensures ReadRules(LinesOf([])) == Grouped([]) == []
  {
    ReloadedIsGrouped([]);
    NothingGrouped(TYPES);
  }

  lemma {:induction false} NothingGrouped(types: seq<RuleType>)
    ensures GroupedBy([], types) == []
  {
    if types != [] { NothingGrouped(types[1..]); }
  }

  /** A value with a line break in it does not come back. */
  lemma LineBreakIsLost(name: string, path: string, r: Rule)
    requires NEW_LINE in r.value
    ensures var locs := [Location(name, path, [r])]; Loaded(Saved(locs)) != Some(AllGrouped(locs))
  {
    var locs := [Location(name, path, [r])];
    assert r in locs[0].rules && !PlainLocation(locs[0]);
    SavedLocationsComeBackGrouped(locs);
  }

  /** Nor does a location with an equals sign in its name, whatever else is saved with it. */
  lemma EqualsSignIsLost(locs: seq<Location>, i: nat)
    requires i < |locs| && '=' in locs[i].name
    ensures Loaded(Saved(locs)) != Some(AllGrouped(locs))
  {
    hide Loaded, Saved, AllGrouped, AllSeparable, NamesAgree;
    assert !PlainLocation(locs[i]);
    SavedLocationsComeBackGrouped(locs);
  }

  lemma {:induction false} FindLocationGrouped(locs: seq<Location>, path: string)
    ensures FindLocation(AllGrouped(locs), path) == FindLocation(locs, path)
  {
    if locs != [] {
      assert AllGrouped(locs)[1..] == AllGrouped(locs[1..]);
      FindLocationGrouped(locs[1..], path);
    }
  }

  /** The backup tree shows the same nodes as excluded, each in the same location, after saving and loading. */
  lemma {:induction false} TreeShowsTheSame(locs: seq<Location>, rx: RegexLibrary, root: FileNode, p: Path)
    ensures var s, t := StateAt(locs, rx, root, p), StateAt(AllGrouped(locs), rx, root, p);
            s.location == t.location && (ShownExcluded(s) <==> ShownExcluded(t))
    decreases |p|
  {
    hide Grouped, FindLocation, FirstMatch, FullPath, IsDir;
    var file, isDir := FullPath(p), IsDir(root, p);
    FindLocationGrouped(locs, file);
    var up, up' := Outside, Outside;
    if p != [] {
      var q := p[..|p| - 1];
      TreeShowsTheSame(locs, rx, root, q);
      up, up' := StateAt(locs, rx, root, q), StateAt(AllGrouped(locs), rx, root, q);
      if up.location.None? {
        OutsideHasNoRules(locs, rx, root, q);
        OutsideHasNoRules(AllGrouped(locs), rx, root, q);
      }
    }
    hide StateAt;
    UpdatedGrouped(locs, rx, up, up', file, isDir);
  }

  lemma UpdatedGrouped(locs: seq<Location>, rx: RegexLibrary, up: NodeState, up': NodeState, file: string, isDir: bool)
    requires up.location == up'.location && (up.location.Some? ==> up.location.value < |locs|)
    requires up.location.None? ==> up == up' == Outside
    requires ShownExcluded(up) <==> ShownExcluded(up')
    ensures var s, t := Updated(locs, rx, up, file, isDir), Updated(AllGrouped(locs), rx, up', file, isDir);
            s.location == t.location && (ShownExcluded(s) <==> ShownExcluded(t))
  {
    hide Grouped, FindLocation, FirstMatch, AllGrouped;
    FindLocationGrouped(locs, file);
    var loc := if up.location.Some? then up.location else FindLocation(locs, file);
    if loc.Some? {
      var l := locs[loc.value];
      FirstMatchesOfGrouped(l.rules, rx, file, isDir);
      JudgedAlike(l.path, l.rules, Grouped(l.rules), rx, file, isDir, up, up');
      assert AllGrouped(locs)[loc.value] == l.(rules := Grouped(l.rules));
      hide Judge;
    }
  }

  /** Lists that match alike exclude alike below parents that are excluded alike. */
  lemma JudgedAlike(locPath: string, a: seq<Rule>, b: seq<Rule>, rx: RegexLibrary, file: string, isDir: bool, up: NodeState, up': NodeState)
    requires FirstMatch(a, Exclude, rx, file, isDir).Some? <==> FirstMatch(b, Exclude, rx, file, isDir).Some?
    requires FirstMatch(a, AlwaysInclude, rx, file, isDir).Some? <==> FirstMatch(b, AlwaysInclude, rx, file, isDir).Some?
    requires (up.excludedBy.Some? && up.includedBy.None?) <==> (up'.excludedBy.Some? && up'.includedBy.None?)
    ensures var v := Judge(locPath, a, rx, file, isDir, Verdict(Included, up.excludedBy, up.includedBy, false));
            var w := Judge(locPath, b, rx, file, isDir, Verdict(Included, up'.excludedBy, up'.includedBy, false));
            (v.excludedBy.Some? && v.includedBy.None?) <==> (w.excludedBy.Some? && w.includedBy.None?)
  {
    hide FirstMatch;
  }

  lemma FirstMatchesOfGrouped(rules: seq<Rule>, rx: RegexLibrary, file: string, isDir: bool)
    ensures FirstMatch(Grouped(rules), Exclude, rx, file, isDir).Some? <==> FirstMatch(rules, Exclude, rx, file, isDir).Some?
    ensures FirstMatch(Grouped(rules), AlwaysInclude, rx, file, isDir).Some? <==> FirstMatch(rules, AlwaysInclude, rx, file, isDir).Some?
  {
    AnyMatchOfGrouped(rules, rx, file, isDir);
  }

  // ----- the configuration object -----

  class ClientConfig {
    var locations: seq<Location>
    /** The locations part of the configuration that was last loaded. */
    var original: Option<seq<Block>>

    constructor ()
      ensures Valid() && locations == [] && original == None
    {
      locations, original := [], None;
    }

    /** The original configuration is one that gives locations. */
    predicate Valid()
      reads this
    {
      original.Some? ==> LocationsIn(original.value).Some?
    }

    /** Write the locations, and load what has been written; loading throws if the text is not one that it can read. */
    method Save() returns (file: string, ok: bool)
      requires Valid()
      modifies this
      ensures Valid() && file == Saved(old(locations))
      ensures ok == Loaded(file).Some?
      ensures if ok then Some(locations) == Loaded(file) && original == ReadFile(file)
              else locations == old(locations) && original == old(original)
    {
      hide Saved, Loaded;
      file := TextOf(locations);
      ok := Load(file);
    }

    static method TextOf(locs: seq<Location>) returns (file: string)
      ensures file == Saved(locs)
    {
      hide Text, BlockTexts, BlockText, LineTexts, LineText;
      ghost var blocks := BlocksOf(locs);
      TextOfTwo("BackupLocations", "{");
      file := "BackupLocations\n{\n";
      BlockTextsEnd(blocks, 0);
      assert HEAD + BlockTexts(blocks[..0]) == ["BackupLocations", "{"];
      for i := 0 to |locs|
        invariant file == Text(HEAD + BlockTexts(blocks[..i]))
      {
        var entries := EntriesText(locs[i]);
        BlockTextsEnd(blocks, i + 1);
        TextAppend(HEAD + BlockTexts(blocks[..i]), BlockText(blocks[i]));
        assert HEAD + BlockTexts(blocks[..i + 1]) == HEAD + BlockTexts(blocks[..i]) + BlockText(blocks[i]);
        file := file + entries;
      }
      assert blocks[..|locs|] == blocks;
      TextAppend(HEAD + BlockTexts(blocks), FOOT);
      TextOfOne("}");
      file := file + "}\n";
    }

    /** The text of one location. */
    static method EntriesText(l: Location) returns (text: string)
      ensures text == Text(BlockText(Block(l.name, BlockLines(l.path, l.rules))))
    {
      hide Text, LineTexts, LineText;
      ghost var all := BlockLines(l.path, l.rules);
      ghost var head := ["\t" + l.name, "\t{"];
      TextOfTwo("\t" + l.name, "\t{");
      text := "\t" + l.name + "\n" + "\t{\n";
      WriteLine(head, all, 0);
      text := text + LineText(Line("Path", l.path)) + "\n";
      for k := 0 to |l.rules|
        invariant text == Text(head + LineTexts(all[..k + 1]))
      {
        var r := l.rules[k];
        WriteLine(head, all, k + 1);
        text := text + LineText(Line(TypeName(r.kind), r.value)) + "\n";
      }
      assert all[..|l.rules| + 1] == all;
      TextAppend(head + LineTexts(all), ["\t}"]);
      TextOfOne("\t}");
      text := text + "\t}\n";
    }

    method Load(file: string) returns (ok: bool)
      requires Valid()
      modifies this
      ensures Valid() && ok == Loaded(file).Some?
      ensures if ok then Some(locations) == Loaded(file) && original == ReadFile(file)
              else locations == old(locations) && original == old(original)
    {
      hide LocationsIn, ReadFile;
      var blocks := ReadFile(file);
      if blocks.None? { return false; }
      var locs := GetConfigurationLocations(blocks.value);
      if locs.None? { return false; }
      locations, original := locs.value, blocks;
      ok := true;
    }

    /** For each name in turn, the block that the configuration gives for it. */
    static method GetConfigurationLocations(blocks: seq<Block>) returns (locs: Option<seq<Location>>)
      ensures locs == LocationsIn(blocks)
    {
      hide ReadRules, KeyValues, Join, LocationsNamed, FirstNamed;
      LocationsNamedExist(blocks, blocks);
      var acc: seq<Location> := [];
      for i := 0 to |blocks|
        invariant |acc| == i && forall j :: 0 <= j < i ==>
                    FirstNamed(blocks, blocks[j].name).Some? && LocationIn(FirstNamed(blocks, blocks[j].name).value) == Some(acc[j])
      {
        var name := blocks[i].name;
        assert blocks[i] in blocks;
        var b := FirstNamed(blocks, name).value;
        var paths := KeyValues(b.lines, "Path");
        if paths == [] { return None; }
        var rules := ReadExcludeList(b.lines);
        acc := acc + [Location(name, Join(paths, SEPARATOR), rules)];
      }
      forall b | b in blocks
        ensures FirstNamed(blocks, b.name).Some? && LocationIn(FirstNamed(blocks, b.name).value).Some?
      {
        var j :| 0 <= j < |blocks| && blocks[j] == b;
      }
      assert acc == LocationsIn(blocks).value;
      return Some(acc);
    }

    /** Take the kinds in turn; under each, the values of its key. */
    static method ReadExcludeList(lines: seq<Line>) returns (rules: seq<Rule>)
      ensures rules == ReadRules(lines)
    {
      hide ReadTypes, ReadType, KeyValues, Split, Join, TypeName;
      rules := [];
      var types := TYPES;
      assert types[0..] == types;
      for i := 0 to |types|
        invariant rules + ReadTypes(lines, types[i..]) == ReadTypes(lines, types)
      {
        var t := types[i];
        ReadTypesStep(lines, types, i);
        var values := KeyValues(lines, TypeName(t));
        if values != [] {
          rules := AddSeparatedList(rules, t, Join(values, SEPARATOR));
        }
      }
      ReadTypesStep(lines, types, |types|);
    }

    /** Add a rule for each of the values that the separator joins. */
    static method AddSeparatedList(rules: seq<Rule>, t: RuleType, entries: string) returns (now: seq<Rule>)
      ensures now == rules + RulesFor(t, Split(entries, SEPARATOR))
    {
      hide Split;
      now := rules;
      var parts := Split(entries, SEPARATOR);
      for k := 0 to |parts|
        invariant |now| == |rules| + k && now[..|rules|] == rules
        invariant forall j :: 0 <= j < k ==> now[|rules| + j] == Rule(t, parts[j])
      {
        now := now + [Rule(t, parts[k])];
      }
      assert now[|rules|..] == RulesFor(t, parts);
    }

    /** Compare the locations with those of the original configuration, one by one. */
    method IsClean() returns (clean: bool)
      requires Valid()
      ensures clean <==> locations == if original.Some? then LocationsIn(original.value).value else []
    {
      hide LocationsIn;
      var olds := [];
      if original.Some? {
        var locs := GetConfigurationLocations(original.value);
        olds := locs.value;
      }
      var i := 0;
      while i < |olds| && i < |locations|
        invariant 0 <= i <= |olds| && i <= |locations|
        invariant forall j :: 0 <= j < i ==> olds[j] == locations[j]
      {
        if locations[i] != olds[i] { return false; }
        i := i + 1;
      }
      return i == |olds| && i == |locations|;
    }
  }

  lemma TextOfOne(a: string)
    ensures Text([a]) == a + "\n"
  {
    assert [a][1..] == [] && Text([]) == "";
  }

  lemma TextOfTwo(a: string, b: string)
    ensures Text([a, b]) == a + "\n" + b + "\n"
  {
    TextOfOne(b);
    assert [a, b][1..] == [b];
    assert a + "\n" + (b + "\n") == a + "\n" + b + "\n";
  }

  lemma {:induction false} BlockTextsAppend(a: seq<Block>, b: seq<Block>)
    ensures BlockTexts(a + b) == BlockTexts(a) + BlockTexts(b)
  {
    if a == [] {
      assert a + b == b;
    } else {
      assert (a + b)[0] == a[0] && (a + b)[1..] == a[1..] + b;
      BlockTextsAppend(a[1..], b);
    }
  }

  lemma BlockTextsEnd(blocks: seq<Block>, i: nat)
    requires i <= |blocks|
    ensures BlockTexts(blocks[..i]) == if i == 0 then [] else BlockTexts(blocks[..i - 1]) + BlockText(blocks[i - 1])
  {
    if i > 0 {
      var last: seq<Block> := [blocks[i - 1]];
      assert blocks[..i] == blocks[..i - 1] + last && last[1..] == [];
      BlockTextsAppend(blocks[..i - 1], last);
      assert BlockTexts(last) == BlockText(blocks[i - 1]);
    }
  }

  lemma WriteLine(head: seq<string>, all: seq<Line>, k: nat)
    requires k < |all|
    ensures Text(head + LineTexts(all[..k + 1])) == Text(head + LineTexts(all[..k])) + LineText(all[k]) + "\n"
    ensures Text(head + LineTexts(all[..0])) == Text(head)
  {
    assert LineTexts(all[..k + 1]) == LineTexts(all[..k]) + [LineText(all[k])];
    assert head + LineTexts(all[..k + 1]) == head + LineTexts(all[..k]) + [LineText(all[k])];
    TextAppend(head + LineTexts(all[..k]), [LineText(all[k])]);
    TextOfOne(LineText(all[k]));
    assert head + LineTexts(all[..0]) == head;
  }
}
