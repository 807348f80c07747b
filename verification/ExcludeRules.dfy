/**
 * Exclude and AlwaysInclude rules (src/Location.cc): how a list of them decides the state of
 * one path, and the exclude list for Box Backup that the same rules are compiled to.
 */
module ExcludeRules {
  import opened Common

  datatype Sense = Exclude | AlwaysInclude
  datatype FileDir = ForFile | ForDir
  datatype Match = Exact | Regex
  datatype RuleType = RuleType(sense: Sense, fileDir: FileDir, match_: Match)
  datatype Rule = Rule(kind: RuleType, value: string)

  datatype ExcludedState = NoLocation | Included | Excluded | AlwaysIncluded

  /** The regular expression library: which expressions compile, and what they find. */
  datatype RegexLibrary = RegexLibrary(compiles: string -> bool, finds: (string, string) -> bool)

  // ----- one rule, one path -----

  predicate Concerns(r: Rule, isDir: bool) {
    r.kind.fileDir == if isDir then ForDir else ForFile
  }

  predicate ValueMatches(r: Rule, rx: RegexLibrary, file: string) {
    match r.kind.match_
    case Exact => r.value == file
    case Regex => rx.compiles(r.value) && rx.finds(r.value, file)
  }

  predicate Applies(r: Rule, sense: Sense, rx: RegexLibrary, file: string, isDir: bool) {
    r.kind.sense == sense && Concerns(r, isDir) && ValueMatches(r, rx, file)
  }

  // ----- a list of rules, one path -----

  function FirstMatch(rules: seq<Rule>, sense: Sense, rx: RegexLibrary, file: string, isDir: bool): (r: Option<Rule>)
    ensures r.Some? ==> r.value in rules && Applies(r.value, sense, rx, file, isDir)
  {
    if rules == [] then None
    else if Applies(rules[0], sense, rx, file, isDir) then Some(rules[0])
    else FirstMatch(rules[1..], sense, rx, file, isDir)
  }

  ghost predicate AnyMatch(rules: seq<Rule>, sense: Sense, rx: RegexLibrary, file: string, isDir: bool) {
    exists r :: r in rules && Applies(r, sense, rx, file, isDir)
  }

  /** What the matcher reports: the state, and through its pointers the rules behind it. */
  datatype Verdict = Verdict(state: ExcludedState, excludedBy: Option<Rule>, includedBy: Option<Rule>, matched: bool)

  /** `before` holds what the pointers point to when the matcher is called. */
  function Judge(locPath: string, rules: seq<Rule>, rx: RegexLibrary, file: string, isDir: bool, before: Verdict): Verdict {
    if file == locPath then before.(state := Included, matched := true)
    else if file == "/" then before.(state := NoLocation)
    else
      var ex := FirstMatch(rules, Exclude, rx, file, isDir);
      var inc := FirstMatch(rules, AlwaysInclude, rx, file, isDir);
      Verdict(
        if inc.Some? then AlwaysIncluded else if ex.Some? then Excluded else Included,
        if ex.Some? then ex else if inc.Some? then before.excludedBy else None,
        inc,
        before.matched || ex.Some? || inc.Some?)
  }

  lemma {:induction false} FirstMatchIsAnyMatch(rules: seq<Rule>, sense: Sense, rx: RegexLibrary, file: string, isDir: bool)
    ensures FirstMatch(rules, sense, rx, file, isDir).Some? <==> AnyMatch(rules, sense, rx, file, isDir)
  {
    if rules != [] {
      FirstMatchIsAnyMatch(rules[1..], sense, rx, file, isDir);
      assert rules == [rules[0]] + rules[1..];
    }
  }

  /** A rule is for directories or for files, and names a path or holds an expression that finds it. */
  lemma AppliesExactly(t: RuleType, value: string, sense: Sense, rx: RegexLibrary, file: string)
    ensures Applies(Rule(t, value), sense, rx, file, true) <==>
              || (t == RuleType(sense, ForDir, Exact) && value == file)
              || (t == RuleType(sense, ForDir, Regex) && rx.compiles(value) && rx.finds(value, file))
    ensures Applies(Rule(t, value), sense, rx, file, false) <==>
              || (t == RuleType(sense, ForFile, Exact) && value == file)
              || (t == RuleType(sense, ForFile, Regex) && rx.compiles(value) && rx.finds(value, file))
  {
  }

  /** Of the rules that apply, the one found is the first in the list. */
  lemma {:induction false} FirstMatchIsFirst(rules: seq<Rule>, sense: Sense, rx: RegexLibrary, file: string, isDir: bool) returns (i: nat)
    ensures i <= |rules| && forall j :: 0 <= j < i ==> !Applies(rules[j], sense, rx, file, isDir)
    ensures i < |rules| ==> Applies(rules[i], sense, rx, file, isDir)
    ensures FirstMatch(rules, sense, rx, file, isDir) == if i < |rules| then Some(rules[i]) else None
  {
    hide Applies;
    i := 0;
    if rules != [] && !Applies(rules[0], sense, rx, file, isDir) {
      i := FirstMatchIsFirst(rules[1..], sense, rx, file, isDir);
      i := i + 1;
    }
  }

  /**
   * The state that is reported, from the rules that apply: an including rule wins over an excluding
   * one, wherever they are in the list; the path of the location and "/" are judged by no rule.
   */
  lemma JudgedByRules(locPath: string, rules: seq<Rule>, rx: RegexLibrary, file: string, isDir: bool, before: Verdict)
    ensures var v := Judge(locPath, rules, rx, file, isDir, before);
            && (file == locPath ==> v == Verdict(Included, before.excludedBy, before.includedBy, true))
            && (file != locPath && file == "/" ==> v == Verdict(NoLocation, before.excludedBy, before.includedBy, before.matched))
            && (file != locPath && file != "/" ==>
                  var excluding, including := exists r :: r in rules && Applies(r, Exclude, rx, file, isDir),
                                              exists r :: r in rules && Applies(r, AlwaysInclude, rx, file, isDir);
                  && (including <==> v.state == AlwaysIncluded)
                  && (excluding && !including <==> v.state == Excluded)
                  && (!excluding && !including <==> v.state == Included)
                  && (v.matched <==> before.matched || excluding || including))
  {
    FirstMatchIsAnyMatch(rules, Exclude, rx, file, isDir);
    FirstMatchIsAnyMatch(rules, AlwaysInclude, rx, file, isDir);
  }

  /**
   * The pointers name the first match of each sense, but for one case: nothing excludes the
   * path, something always includes it, and the excluding pointer was set before. It keeps
   * its old value then.
   */
  lemma PointersAreFirstMatches(locPath: string, rules: seq<Rule>, rx: RegexLibrary, file: string, isDir: bool, before: Verdict)
    requires file != locPath && file != "/"
    ensures var v := Judge(locPath, rules, rx, file, isDir, before);
            && v.includedBy == FirstMatch(rules, AlwaysInclude, rx, file, isDir)
            && (v.excludedBy == FirstMatch(rules, Exclude, rx, file, isDir) <==>
                AnyMatch(rules, Exclude, rx, file, isDir) || !AnyMatch(rules, AlwaysInclude, rx, file, isDir) || before.excludedBy == None)
  {
    FirstMatchIsAnyMatch(rules, Exclude, rx, file, isDir);
    FirstMatchIsAnyMatch(rules, AlwaysInclude, rx, file, isDir);
  }

  // ----- the order of the two senses among each other does not matter -----

  function OfSense(rules: seq<Rule>, sense: Sense): seq<Rule> {
    if rules == [] then []
    else (if rules[0].kind.sense == sense then [rules[0]] else []) + OfSense(rules[1..], sense)
  }

  lemma {:induction false} FirstMatchOfSense(rules: seq<Rule>, sense: Sense, rx: RegexLibrary, file: string, isDir: bool)
    ensures FirstMatch(rules, sense, rx, file, isDir) == FirstMatch(OfSense(rules, sense), sense, rx, file, isDir)
  {
    if rules != [] {
      FirstMatchOfSense(rules[1..], sense, rx, file, isDir);
      if rules[0].kind.sense == sense {
        assert OfSense(rules, sense)[1..] == OfSense(rules[1..], sense);
      } else {
        assert OfSense(rules, sense) == OfSense(rules[1..], sense);
      }
    }
  }

  lemma InterleavingIsIrrelevant(a: seq<Rule>, b: seq<Rule>, locPath: string, rx: RegexLibrary, file: string, isDir: bool, before: Verdict)
    requires forall sense :: OfSense(a, sense) == OfSense(b, sense)
    ensures Judge(locPath, a, rx, file, isDir, before) == Judge(locPath, b, rx, file, isDir, before)
  {
    forall sense
      ensures FirstMatch(a, sense, rx, file, isDir) == FirstMatch(b, sense, rx, file, isDir)
    {
      FirstMatchOfSense(a, sense, rx, file, isDir);
      FirstMatchOfSense(b, sense, rx, file, isDir);
    }
  }

  // ----- the exclude list of the library -----

  /** Paths and expressions to exclude, and those of the always-include list attached to it. */
  datatype BoxList = BoxList(definite: seq<string>, regexes: seq<string>,
                             alwaysDefinite: seq<string>, alwaysRegexes: seq<string>)

  predicate Listed(definite: seq<string>, regexes: seq<string>, rx: RegexLibrary, file: string) {
    file in definite || exists e :: e in regexes && rx.finds(e, file)
  }

  /** The library excludes what it lists, unless the always-include list has it. */
  predicate BoxExcludes(list: BoxList, rx: RegexLibrary, file: string) {
    && Listed(list.definite, list.regexes, rx, file)
    && !Listed(list.alwaysDefinite, list.alwaysRegexes, rx, file)
  }

  /** Add one rule; an expression that does not compile makes the library throw. */
  function AddToBoxList(list: BoxList, r: Rule, rx: RegexLibrary): Option<BoxList> {
    match (r.kind.sense, r.kind.match_)
    case (Exclude, Exact) => Some(list.(definite := list.definite + [r.value]))
    case (AlwaysInclude, Exact) => Some(list.(alwaysDefinite := list.alwaysDefinite + [r.value]))
    case (Exclude, Regex) =>
      if rx.compiles(r.value) then Some(list.(regexes := list.regexes + [r.value])) else None
    case (AlwaysInclude, Regex) =>
      if rx.compiles(r.value) then Some(list.(alwaysRegexes := list.alwaysRegexes + [r.value])) else None
  }

  function BoxListOf(rules: seq<Rule>, rx: RegexLibrary, listDirs: bool): Option<BoxList> {
    if rules == [] then Some(BoxList([], [], [], []))
    else
      var before := BoxListOf(rules[..|rules| - 1], rx, listDirs);
      var r := rules[|rules| - 1];
      if before.None? || !Concerns(r, listDirs) then before else AddToBoxList(before.value, r, rx)
  }

  /** The list can be built exactly when every expression that goes into it compiles. */
  lemma {:induction false} BoxListExists(rules: seq<Rule>, rx: RegexLibrary, listDirs: bool)
    ensures BoxListOf(rules, rx, listDirs).Some? <==>
            forall r :: r in rules && Concerns(r, listDirs) && r.kind.match_ == Regex ==> rx.compiles(r.value)
  {
    if rules != [] {
      BoxListExists(rules[..|rules| - 1], rx, listDirs);
      assert rules == rules[..|rules| - 1] + [rules[|rules| - 1]];
    }
  }

  lemma {:induction false} BoxListMatches(rules: seq<Rule>, rx: RegexLibrary, listDirs: bool, file: string)
    requires BoxListOf(rules, rx, listDirs).Some?
    ensures var list := BoxListOf(rules, rx, listDirs).value;
            && (Listed(list.definite, list.regexes, rx, file) <==> AnyMatch(rules, Exclude, rx, file, listDirs))
            && (Listed(list.alwaysDefinite, list.alwaysRegexes, rx, file) <==> AnyMatch(rules, AlwaysInclude, rx, file, listDirs))
  {
    if rules != [] {
      var most, r := rules[..|rules| - 1], rules[|rules| - 1];
      BoxListMatches(most, rx, listDirs, file);
      assert rules == most + [r];
      AnyMatchAppend(most, r, Exclude, rx, file, listDirs);
      AnyMatchAppend(most, r, AlwaysInclude, rx, file, listDirs);
      var before, list := BoxListOf(most, rx, listDirs).value, BoxListOf(rules, rx, listDirs).value;
      ListedGrows(before.definite, before.regexes, list.definite, list.regexes, r.value, rx, file);
      ListedGrows(before.alwaysDefinite, before.alwaysRegexes, list.alwaysDefinite, list.alwaysRegexes, r.value, rx, file);
    }
  }

  /** Each part of the compiled list holds the values of one kind of rules, and of those only. */
  lemma {:induction false} BoxListHolds(rules: seq<Rule>, rx: RegexLibrary, listDirs: bool, value: string)
    requires BoxListOf(rules, rx, listDirs).Some?
    ensures var list, fileDir := BoxListOf(rules, rx, listDirs).value, if listDirs then ForDir else ForFile;
            && (value in list.definite <==> Rule(RuleType(Exclude, fileDir, Exact), value) in rules)
            && (value in list.regexes <==> Rule(RuleType(Exclude, fileDir, Regex), value) in rules)
            && (value in list.alwaysDefinite <==> Rule(RuleType(AlwaysInclude, fileDir, Exact), value) in rules)
            && (value in list.alwaysRegexes <==> Rule(RuleType(AlwaysInclude, fileDir, Regex), value) in rules)
  {
    if rules != [] {
      var most, r := rules[..|rules| - 1], rules[|rules| - 1];
      BoxListHolds(most, rx, listDirs, value);
      assert rules == most + [r];
      assert forall o :: o in rules <==> o in most || o == r;
      if Concerns(r, listDirs) { AddedToBoxList(BoxListOf(most, rx, listDirs).value, r, rx, value); }
      hide AddToBoxList;
    }
  }

  lemma AddedToBoxList(list: BoxList, r: Rule, rx: RegexLibrary, value: string)
    requires AddToBoxList(list, r, rx).Some?
    ensures var now := AddToBoxList(list, r, rx).value;
            && (value in now.definite <==> value in list.definite || r == Rule(RuleType(Exclude, r.kind.fileDir, Exact), value))
            && (value in now.regexes <==> value in list.regexes || r == Rule(RuleType(Exclude, r.kind.fileDir, Regex), value))
            && (value in now.alwaysDefinite <==> value in list.alwaysDefinite || r == Rule(RuleType(AlwaysInclude, r.kind.fileDir, Exact), value))
            && (value in now.alwaysRegexes <==> value in list.alwaysRegexes || r == Rule(RuleType(AlwaysInclude, r.kind.fileDir, Regex), value))
  {
    assert r == Rule(RuleType(r.kind.sense, r.kind.fileDir, r.kind.match_), r.value);
  }

  lemma AnyMatchAppend(rules: seq<Rule>, r: Rule, sense: Sense, rx: RegexLibrary, file: string, isDir: bool)
    ensures AnyMatch(rules + [r], sense, rx, file, isDir) <==>
            AnyMatch(rules, sense, rx, file, isDir) || Applies(r, sense, rx, file, isDir)
  {
  }

  lemma ListedGrows(definite: seq<string>, regexes: seq<string>, definite': seq<string>, regexes': seq<string>,
                    value: string, rx: RegexLibrary, file: string)
    ensures definite' == definite + [value] && regexes' == regexes ==>
              (Listed(definite', regexes', rx, file) <==> Listed(definite, regexes, rx, file) || file == value)
    ensures definite' == definite && regexes' == regexes + [value] ==>
              (Listed(definite', regexes', rx, file) <==> Listed(definite, regexes, rx, file) || rx.finds(value, file))
  {
  }

  /** Where the list exists, it excludes a path exactly when the matcher does. */
  lemma BoxListAgrees(locPath: string, rules: seq<Rule>, rx: RegexLibrary, file: string, isDir: bool, before: Verdict)
    requires file != locPath && file != "/"
    requires BoxListOf(rules, rx, isDir).Some?
    ensures Judge(locPath, rules, rx, file, isDir, before).state == Excluded <==>
            BoxExcludes(BoxListOf(rules, rx, isDir).value, rx, file)
  {
    BoxListMatches(rules, rx, isDir, file);
    FirstMatchIsAnyMatch(rules, Exclude, rx, file, isDir);
    FirstMatchIsAnyMatch(rules, AlwaysInclude, rx, file, isDir);
  }

  // ----- editing a list -----

  function Added(rules: seq<Rule>, r: Rule): seq<Rule> {
    if r in rules then rules else rules + [r]
  }

  function Inserted(rules: seq<Rule>, index: int, r: Rule): seq<Rule> {
    if r in rules then rules
    else
      var k := if index < 0 then 0 else if index > |rules| then |rules| else index;
      rules[..k] + [r] + rules[k..]
  }

  /** Without the first occurrence of `r`. */
  function Removed(rules: seq<Rule>, r: Rule): seq<Rule> {
    if rules == [] then []
    else if rules[0] == r then rules[1..]
    else [rules[0]] + Removed(rules[1..], r)
  }

  lemma {:induction false} RemovedOnce(rules: seq<Rule>, r: Rule)
    ensures multiset(Removed(rules, r)) == multiset(rules) - multiset{r}
  {
    if rules != [] {
      assert rules == [rules[0]] + rules[1..];
      if rules[0] != r {
        RemovedOnce(rules[1..], r);
        assert multiset(rules) == multiset{rules[0]} + multiset(rules[1..]);
      }
    }
  }

  /** Removing a rule takes one occurrence of it away and nothing else. */
  lemma RemovedHasTheRest(rules: seq<Rule>, r: Rule)
    ensures multiset(Removed(rules, r)) == multiset(rules) - multiset{r}
    ensures forall x :: x in Removed(rules, r) <==> x in rules && (x != r || multiset(rules)[r] > 1)
  {
    RemovedOnce(rules, r);
    hide Removed;
    forall x
      ensures x in Removed(rules, r) <==> x in rules && (x != r || multiset(rules)[r] > 1)
    {
      assert x in Removed(rules, r) <==> x in multiset(Removed(rules, r));
      assert x in rules <==> x in multiset(rules);
    }
  }

  class BoxiExcludeList {
    var entries: seq<Rule>

    constructor ()
      ensures entries == []
    {
      entries := [];
    }

    /** The position of a rule in the list, or its length. */
    method Find(r: Rule) returns (i: nat)
      ensures i <= |entries|
      ensures r !in entries[..i]
      ensures i < |entries| ==> entries[i] == r
    {
      i := 0;
      while i < |entries| && entries[i] != r
        invariant i <= |entries| && r !in entries[..i]
      {
        i := i + 1;
      }
    }

    method Contains(r: Rule) returns (found: bool)
      ensures found == (r in entries)
    {
      var i := Find(r);
      found := i < |entries|;
      assert entries == entries[..i] + entries[i..];
    }

    method AddEntry(r: Rule)
      modifies this
      ensures entries == Added(old(entries), r)
      ensures entries == if r in old(entries) then old(entries) else old(entries) + [r]
    {
      var found := Contains(r);
      if !found {
        entries := entries + [r];
      }
    }

    method InsertEntry(index: int, r: Rule)
      modifies this
      ensures entries == Inserted(old(entries), index, r)
      ensures r in old(entries) ==> entries == old(entries)
      ensures r !in old(entries) && index <= 0 ==> entries == [r] + old(entries)
      ensures r !in old(entries) && 0 <= index <= |old(entries)| ==> entries == old(entries)[..index] + [r] + old(entries)[index..]
      ensures r !in old(entries) && index >= |old(entries)| ==> entries == old(entries) + [r]
    {
      var found := Contains(r);
      if found { return; }
      var i, left := 0, index;
      while i < |entries| && left > 0
        invariant 0 <= i <= |entries|
        invariant left == index - i && (i == 0 || left >= 0)
      {
        i, left := i + 1, left - 1;
      }
      entries := entries[..i] + [r] + entries[i..];
    }

    /** The new rule takes the place of the first occurrence of the old one. */
    method ReplaceEntry(was: Rule, r: Rule) returns (found: bool)
      modifies this
      ensures found == (was in old(entries))
      ensures !found ==> entries == old(entries)
      ensures found ==>
        exists i :: 0 <= i < |old(entries)| && old(entries)[i] == was && was !in old(entries)[..i] &&
                    entries == old(entries)[i := r]
    {
      var i := Find(was);
      found := i < |entries|;
      assert entries == entries[..i] + entries[i..];
      if found {
        entries := entries[i := r];
      }
    }

    method RemoveEntry(r: Rule) returns (found: bool)
      modifies this
      ensures found == (r in old(entries))
      ensures entries == Removed(old(entries), r)
      ensures if r !in old(entries) then entries == old(entries)
              else exists i :: 0 <= i < |old(entries)| && old(entries)[i] == r && r !in old(entries)[..i] &&
                               entries == old(entries)[..i] + old(entries)[i + 1..]
    {
      var i := Find(r);
      found := i < |entries|;
      assert entries == entries[..i] + entries[i..];
      RemovedAt(entries, r, i);
      if found {
        entries := entries[..i] + entries[i + 1..];
      }
    }
  }

  lemma {:induction false} RemovedAt(rules: seq<Rule>, r: Rule, i: nat)
    requires i <= |rules| && r !in rules[..i] && (i < |rules| ==> rules[i] == r)
    ensures Removed(rules, r) == if i < |rules| then rules[..i] + rules[i + 1..] else rules
  {
    if i > 0 {
      var rest := rules[1..];
      assert rules[0] == rules[..i][0] && rules[..i][1..] == rest[..i - 1];
      RemovedAt(rest, r, i - 1);
      if i < |rules| {
        assert [rules[0]] + rest[..i - 1] == rules[..i] && rest[i..] == rules[i + 1..];
        Regroup([rules[0]], rest[..i - 1], rest[i..]);
      } else {
        assert [rules[0]] + rest == rules;
      }
    }
  }

  class BoxiLocation {
    var name: string
    var path: string
    const excludes: BoxiExcludeList

    constructor (name: string, path: string)
      ensures this.name == name && this.path == path
      ensures fresh(excludes) && excludes.entries == []
    {
      this.name, this.path := name, path;
      excludes := new BoxiExcludeList();
    }

    /** Two passes over the rules: the first for those that exclude, the second for those that re-add. */
    method GetExcludedState(rx: RegexLibrary, file: string, isDir: bool, before: Verdict) returns (v: Verdict)
      ensures v == Judge(path, excludes.entries, rx, file, isDir, before)
      ensures file != path && file != "/" ==>
                && v.state == (if AnyMatch(excludes.entries, AlwaysInclude, rx, file, isDir) then AlwaysIncluded
                               else if AnyMatch(excludes.entries, Exclude, rx, file, isDir) then Excluded else Included)
    {
      hide Concerns, ValueMatches;
      if file == path { return before.(state := Included, matched := true); }
      if file == "/" { return before.(state := NoLocation); }
      var rules := excludes.entries;
      v := before.(state := Included);
      ghost var ex := FirstMatch(rules, Exclude, rx, file, isDir);
      ghost var inc := FirstMatch(rules, AlwaysInclude, rx, file, isDir);
      for pass := 1 to 3
        invariant pass == 1 ==> v == before.(state := Included)
        invariant pass >= 2 && ex.None? ==> v.excludedBy == before.excludedBy && (pass == 2 ==> v == before.(state := Included))
        invariant pass >= 2 && ex.Some? ==> v.excludedBy == ex && v.matched && (pass == 2 ==> v == Verdict(Excluded, ex, before.includedBy, true))
        invariant pass == 3 && inc.None? ==> v.includedBy == before.includedBy && v.state == (if ex.Some? then Excluded else Included)
        invariant pass == 3 && inc.None? ==> v.matched == (before.matched || ex.Some?)
        invariant pass == 3 && inc.Some? ==> v.includedBy == inc && v.state == AlwaysIncluded && v.matched
      {
        var sense := if pass == 1 then Exclude else AlwaysInclude;
        ghost var start := v;
        var i := 0;
        while i < |rules|
          invariant 0 <= i <= |rules| && v == start
          invariant FirstMatch(rules[i..], sense, rx, file, isDir) == FirstMatch(rules, sense, rx, file, isDir)
        {
          var r := rules[i];
          if r.kind.sense == sense && Concerns(r, isDir) && ValueMatches(r, rx, file) {
            v := v.(matched := true);
            if sense == Exclude {
              v := v.(state := Excluded, excludedBy := Some(r));
            } else {
              v := v.(state := AlwaysIncluded, includedBy := Some(r));
            }
            break;
          }
          i := i + 1;
        }
      }
      if v.state != AlwaysIncluded {
        v := v.(includedBy := None);
      }
      if v.state == Included {
        v := v.(excludedBy := None);
      }
      JudgedByRules(path, rules, rx, file, isDir, before);
    }

    /** No result where the library throws. */
    method GetBoxExcludeList(rx: RegexLibrary, listDirs: bool) returns (list: Option<BoxList>)
      ensures list == BoxListOf(excludes.entries, rx, listDirs)
    {
      var rules := excludes.entries;
      var acc := BoxList([], [], [], []);
      for i := 0 to |rules|
        invariant Some(acc) == BoxListOf(rules[..i], rx, listDirs)
      {
        assert rules[..i + 1][..i] == rules[..i];
        if Concerns(rules[i], listDirs) {
          var added := AddToBoxList(acc, rules[i], rx);
          if added.None? {
            BoxListExists(rules[..i + 1], rx, listDirs);
            BoxListExists(rules, rx, listDirs);
            return None;
          }
          acc := added.value;
        }
      }
      assert rules[..|rules|] == rules;
      return Some(acc);
    }
  }
}
