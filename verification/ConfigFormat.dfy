/**
 * The configuration file letter by letter: the text that is written for locations and their rules,
 * and the rules that lines with each of the keys give.
 */
module ConfigFormat {
  import opened Common
  import opened ConfigText
  import opened ExcludeRules
  import opened BackupTree
  import opened ClientConfig

  lemma TextOfLines(a: string, b: string, lines: seq<string>)
    ensures Text([a]) == a + "\n" && Text([a, b]) == a + "\n" + b + "\n"
    ensures Text([a] + lines) == a + "\n" + Text(lines)
  {
    assert [a][1..] == [] && [b][1..] == [] && [a, b][1..] == [b];
    assert ([a] + lines)[1..] == lines;
    assert a + "\n" + (b + "\n") == a + "\n" + b + "\n";
  }

  lemma {:induction false} LinesAppend(rules: seq<Rule>, r: Rule)
    ensures LineTexts(LinesOf(rules + [r])) == LineTexts(LinesOf(rules)) + [LineText(Line(TypeName(r.kind), r.value))]
  {
    hide TypeName, LineText;
    assert LinesOf(rules + [r]) == LinesOf(rules) + [Line(TypeName(r.kind), r.value)];
  }

  lemma KeyTexts()
    ensures TypeName(RuleType(Exclude, ForDir, Exact)) == "ExcludeDir" && TypeName(RuleType(Exclude, ForDir, Regex)) == "ExcludeDirsRegex"
    ensures TypeName(RuleType(Exclude, ForFile, Exact)) == "ExcludeFile" && TypeName(RuleType(Exclude, ForFile, Regex)) == "ExcludeFilesRegex"
    ensures TypeName(RuleType(AlwaysInclude, ForDir, Exact)) == "AlwaysIncludeDir"
    ensures TypeName(RuleType(AlwaysInclude, ForDir, Regex)) == "AlwaysIncludeDirsRegex"
    ensures TypeName(RuleType(AlwaysInclude, ForFile, Exact)) == "AlwaysIncludeFile"
    ensures TypeName(RuleType(AlwaysInclude, ForFile, Regex)) == "AlwaysIncludeFilesRegex"
  {
  }

  // ----- writing -----

  /** The line of a rule, behind those of the rules before it. */
  lemma RuleLine(rules: seq<Rule>, r: Rule)
    ensures Text(LineTexts(LinesOf([]))) == ""
    ensures Text(LineTexts(LinesOf(rules + [r]))) ==
            Text(LineTexts(LinesOf(rules))) + "\t\t" +
            (match r.kind
             case RuleType(Exclude, ForDir, Exact) => "ExcludeDir"
             case RuleType(Exclude, ForDir, Regex) => "ExcludeDirsRegex"
             case RuleType(Exclude, ForFile, Exact) => "ExcludeFile"
             case RuleType(Exclude, ForFile, Regex) => "ExcludeFilesRegex"
             case RuleType(AlwaysInclude, ForDir, Exact) => "AlwaysIncludeDir"
             case RuleType(AlwaysInclude, ForDir, Regex) => "AlwaysIncludeDirsRegex"
             case RuleType(AlwaysInclude, ForFile, Exact) => "AlwaysIncludeFile"
             case RuleType(AlwaysInclude, ForFile, Regex) => "AlwaysIncludeFilesRegex") + " = " + r.value + "\n"
  {
    hide TypeName;
    KeyTexts();
    NoLines();
    LineAppended(rules, r);
  }

  lemma NoLines()
    ensures Text(LineTexts(LinesOf([]))) == ""
  {
    assert LinesOf([]) == [] && LineTexts([]) == [] && Text([]) == "";
  }

  lemma LineAppended(rules: seq<Rule>, r: Rule)
    ensures Text(LineTexts(LinesOf(rules + [r]))) ==
            Text(LineTexts(LinesOf(rules))) + "\t\t" + TypeName(r.kind) + " = " + r.value + "\n"
  {
    var before, line := LineTexts(LinesOf(rules)), LineText(Line(TypeName(r.kind), r.value));
    LinesAppend(rules, r);
    TextAppend(before, [line]);
    TextOfLines(line, "", []);
    hide Text, TypeName, LineTexts, LinesOf;
    assert line == "\t\t" + TypeName(r.kind) + " = " + r.value;
  }

  /** The block of a location. */
  lemma LocationText(l: Location)
    ensures Text(BlockText(Block(l.name, BlockLines(l.path, l.rules)))) ==
            "\t" + l.name + "\n\t{\n\t\tPath = " + l.path + "\n" + Text(LineTexts(LinesOf(l.rules))) + "\t}\n"
  {
    var lines := LineTexts(LinesOf(l.rules));
    var path := LineText(Line("Path", l.path));
    PathFirst(l);
    TextOfLines("\t" + l.name, "", ["\t{"] + ([path] + (lines + ["\t}"])));
    TextOfLines("\t{", "", [path] + (lines + ["\t}"]));
    TextOfLines(path, "", lines + ["\t}"]);
    TextAppend(lines, ["\t}"]);
    TextOfLines("\t}", "", []);
    hide Text, LineTexts, LinesOf, BlockText;
    assert path == "\t\tPath = " + l.path;
    Glue("\t" + l.name, "\t{", path, Text(lines));
    assert "\n" + "\t{" + "\n" + "\t\tPath = " == "\n\t{\n\t\tPath = ";
  }

  lemma PathFirst(l: Location)
    ensures BlockText(Block(l.name, BlockLines(l.path, l.rules))) ==
            ["\t" + l.name] + (["\t{"] + ([LineText(Line("Path", l.path))] + (LineTexts(LinesOf(l.rules)) + ["\t}"])))
  {
    var all := BlockLines(l.path, l.rules);
    assert all[1..] == LinesOf(l.rules) && all[0] == Line("Path", l.path);
    FirstLine(all);
    hide LineText, LineTexts, LinesOf;
    Nested("\t" + l.name, "\t{", LineText(all[0]), LineTexts(all[1..]), "\t}");
  }

  lemma FirstLine(lines: seq<Line>)
    requires lines != []
    ensures LineTexts(lines) == [LineText(lines[0])] + LineTexts(lines[1..])
  {
    hide LineText;
  }

  lemma Nested(a: string, b: string, c: string, rest: seq<string>, end: string)
    ensures [a, b] + ([c] + rest) + [end] == [a] + ([b] + ([c] + (rest + [end])))
  {
  }

  lemma Glue(a: string, b: string, c: string, d: string)
    ensures a + "\n" + (b + "\n" + (c + "\n" + (d + ("\t}" + "\n")))) == a + "\n" + b + "\n" + c + "\n" + d + "\t}\n"
  {
    assert "\t}" + "\n" == "\t}\n";
  }

  /** The file: its header, the blocks of the locations in order, and its end. */
  lemma SavedText(locs: seq<Location>, l: Location)
    ensures Saved([]) == "BackupLocations\n{\n" + "}\n"
    ensures exists blocks :: Saved(locs) == "BackupLocations\n{\n" + blocks + "}\n" &&
              Saved(locs + [l]) == "BackupLocations\n{\n" + blocks +
                                   "\t" + l.name + "\n\t{\n\t\tPath = " + l.path + "\n" + Text(LineTexts(LinesOf(l.rules))) + "\t}\n" + "}\n"
  {
    hide Text, LineTexts, LinesOf, BlockText;
    SavedIs([]);
    SavedIs(locs);
    SavedIs(locs + [l]);
    var b := Block(l.name, BlockLines(l.path, l.rules));
    LocationText(l);
    assert BlocksOf(locs + [l]) == BlocksOf(locs) + [b];
    BlockTextsOfOne(b);
    BlockTextsAppend(BlocksOf(locs), [b]);
    TextAppend(BlockTexts(BlocksOf(locs)), BlockText(b));
    assert Text([]) == "" by { EmptyText(); }
    var blocks := Text(BlockTexts(BlocksOf(locs)));
    hide BlockTexts, Saved, BlocksOf, BlockLines;
    Regroup("BackupLocations\n{\n", blocks, Text(BlockText(b)));
    assert Saved(locs) == "BackupLocations\n{\n" + blocks + "}\n";
    Spread("BackupLocations\n{\n" + blocks, l.name, l.path, Text(LineTexts(LinesOf(l.rules))));
  }

  lemma Spread(a: string, name: string, path: string, rules: string)
    ensures a + ("\t" + name + "\n\t{\n\t\tPath = " + path + "\n" + rules + "\t}\n") + "}\n" ==
            a + "\t" + name + "\n\t{\n\t\tPath = " + path + "\n" + rules + "\t}\n" + "}\n"
  {
  }

  lemma EmptyText()
    ensures Text([]) == ""
  {
  }

  lemma BlockTextsOfOne(b: Block)
    ensures BlockTexts([b]) == BlockText(b)
  {
    hide BlockText;
    assert [b][1..] == [];
  }

  lemma SavedIs(locs: seq<Location>)
    ensures Saved(locs) == "BackupLocations\n{\n" + Text(BlockTexts(BlocksOf(locs))) + "}\n"
    ensures locs == [] ==> BlockTexts(BlocksOf(locs)) == []
  {
    var blocks := BlockTexts(BlocksOf(locs));
    TextAppend(HEAD + blocks, FOOT);
    TextAppend(HEAD, blocks);
    TextOfLines("BackupLocations", "{", []);
    TextOfLines("}", "", []);
    assert "BackupLocations" + "\n" + "{" + "\n" == "BackupLocations\n{\n" && "}" + "\n" == "}\n";
  }

  // ----- reading -----

  /** Where no value holds the separator, the rules read are those that stand in the lines under the eight keys. */
  lemma KeysGiveKinds(lines: seq<Line>, t: RuleType, value: string)
    requires forall l :: l in lines ==> (1 as char) !in l.value
    ensures Rule(t, value) in ReadRules(lines) <==>
            Line(match t
                 case RuleType(Exclude, ForDir, Exact) => "ExcludeDir"
                 case RuleType(Exclude, ForDir, Regex) => "ExcludeDirsRegex"
                 case RuleType(Exclude, ForFile, Exact) => "ExcludeFile"
                 case RuleType(Exclude, ForFile, Regex) => "ExcludeFilesRegex"
                 case RuleType(AlwaysInclude, ForDir, Exact) => "AlwaysIncludeDir"
                 case RuleType(AlwaysInclude, ForDir, Regex) => "AlwaysIncludeDirsRegex"
                 case RuleType(AlwaysInclude, ForFile, Exact) => "AlwaysIncludeFile"
                 case RuleType(AlwaysInclude, ForFile, Regex) => "AlwaysIncludeFilesRegex", value) in lines
  {
    KeyTexts();
    hide ReadType, ReadTypes, TypeName, OfType;
    KindsDiffer();
    EveryTypeListed(t);
    OfTypeOfRead(lines, TYPES, t);
    OfTypeHas(ReadRules(lines), Rule(t, value));
    ReadTypeHas(lines, t, value);
  }

  lemma {:induction false} OfTypeHas(rules: seq<Rule>, r: Rule)
    ensures r in OfType(rules, r.kind) <==> r in rules
  {
    if rules != [] {
      OfTypeHas(rules[1..], r);
      assert rules == [rules[0]] + rules[1..];
    }
  }

  lemma ReadTypeHas(lines: seq<Line>, t: RuleType, value: string)
    requires forall l :: l in lines ==> SEPARATOR !in l.value
    ensures Rule(t, value) in ReadType(lines, t) <==> Line(TypeName(t), value) in lines
  {
    hide TypeName, Split, Join;
    var values := KeyValues(lines, TypeName(t));
    KeyValuesMembers(lines, TypeName(t), SEPARATOR);
    KeyValuesHave(lines, TypeName(t), value);
    if values != [] {
      SplitJoin(values, SEPARATOR);
      var rules := RulesFor(t, values);
      if value in values {
        var i :| 0 <= i < |values| && values[i] == value;
        assert rules[i] == Rule(t, value);
      }
      if Rule(t, value) in rules {
        var i :| 0 <= i < |rules| && rules[i] == Rule(t, value);
        assert values[i] == value;
      }
    }
  }

  lemma {:induction false} KeyValuesHave(lines: seq<Line>, key: string, value: string)
    ensures value in KeyValues(lines, key) <==> Line(key, value) in lines
  {
    if lines != [] {
      KeyValuesHave(lines[1..], key, value);
      assert lines == [lines[0]] + lines[1..];
      assert lines[0] == Line(lines[0].key, lines[0].value);
    }
  }

  /** The values under one key are read in their order, and the byte 1 in a value divides it in two. */
  lemma ValuesOfAKey(a: string, b: string)
    requires (1 as char) !in a && (1 as char) !in b
    ensures ReadRules([Line("ExcludeDir", a), Line("ExcludeDir", b)]) ==
            [Rule(RuleType(Exclude, ForDir, Exact), a), Rule(RuleType(Exclude, ForDir, Exact), b)]
    ensures ReadRules([Line("ExcludeDir", a + [1 as char] + b)]) ==
            [Rule(RuleType(Exclude, ForDir, Exact), a), Rule(RuleType(Exclude, ForDir, Exact), b)]
  {
    var t := RuleType(Exclude, ForDir, Exact);
    var two, joined := [Line("ExcludeDir", a), Line("ExcludeDir", b)], [Line("ExcludeDir", a + [1 as char] + b)];
    KeyTexts();
    SplitFirst(a, SEPARATOR, b);
    assert Split(b, SEPARATOR) == [b];
    assert [a, b][1..] == [b];
    KeyValuesOfTwo("ExcludeDir", a, b);
    KeyValuesOfTwo("ExcludeDir", a + [SEPARATOR] + b, b);
    RulesForTwo(t, a, b);
    hide KeyValues, RulesFor, TypeName, ReadRules;
    JoinOfTwo(a, b, SEPARATOR);
    JoinOfTwo(a + [SEPARATOR] + b, b, SEPARATOR);
    assert ReadType(two, t) == RulesFor(t, [a, b]) && ReadType(joined, t) == RulesFor(t, [a, b]);
    OnlyExcludeDir(two);
    OnlyExcludeDir(joined);
  }

  lemma JoinOfTwo(a: string, b: string, sep: char)
    ensures Join([a, b], sep) == a + [sep] + b && Join([a], sep) == a
  {
    assert [a, b][1..] == [b];
  }

  lemma KeyValuesOfTwo(key: string, a: string, b: string)
    ensures KeyValues([Line(key, a), Line(key, b)], key) == [a, b] && KeyValues([Line(key, a)], key) == [a]
  {
    var one, two := [Line(key, b)], [Line(key, a), Line(key, b)];
    assert two[1..] == one && one[1..] == [] && [Line(key, a)][1..] == [];
    assert KeyValues(one, key) == [b] && KeyValues([], key) == [];
    assert [a] + [b] == [a, b];
  }

  lemma RulesForTwo(t: RuleType, a: string, b: string)
    ensures RulesFor(t, [a, b]) == [Rule(t, a), Rule(t, b)]
  {
  }

  lemma OnlyExcludeDir(lines: seq<Line>)
    requires forall l :: l in lines ==> l.key == "ExcludeDir"
    ensures ReadRules(lines) == ReadType(lines, RuleType(Exclude, ForDir, Exact))
  {
    hide ReadType;
    assert ReadRules(lines) == ReadType(lines, TYPES[0]) + ReadTypes(lines, TYPES[1..]);
    NothingForOthers(lines, TYPES[1..]);
  }

  lemma {:induction false} NothingForOthers(lines: seq<Line>, types: seq<RuleType>)
    requires (forall l :: l in lines ==> l.key == "ExcludeDir") && RuleType(Exclude, ForDir, Exact) !in types
    ensures ReadTypes(lines, types) == []
  {
    if types != [] {
      KeyTexts();
      TypeNamesDiffer(types[0], RuleType(Exclude, ForDir, Exact));
      NoValuesOf(lines, TypeName(types[0]));
      NothingForOthers(lines, types[1..]);
    }
  }

  lemma {:induction false} NoValuesOf(lines: seq<Line>, key: string)
    requires forall l :: l in lines ==> l.key != key
    ensures KeyValues(lines, key) == []
  {
    if lines != [] {
      assert lines[0] in lines;
      NoValuesOf(lines[1..], key);
    }
  }

  /** The kinds come in this order, whatever the order of the lines or of the rules. */
  lemma KindsInOrder(rules: seq<Rule>, lines: seq<Line>)
    ensures Grouped(rules) ==
            OfType(rules, RuleType(Exclude, ForDir, Exact)) + OfType(rules, RuleType(Exclude, ForDir, Regex)) +
            OfType(rules, RuleType(Exclude, ForFile, Exact)) + OfType(rules, RuleType(Exclude, ForFile, Regex)) +
            OfType(rules, RuleType(AlwaysInclude, ForDir, Exact)) + OfType(rules, RuleType(AlwaysInclude, ForDir, Regex)) +
            OfType(rules, RuleType(AlwaysInclude, ForFile, Exact)) + OfType(rules, RuleType(AlwaysInclude, ForFile, Regex))
    ensures ReadRules(lines) == Grouped(ReadRules(lines))
  {
    ReadRulesAreGrouped(lines);
    hide OfType, ReadRules;
    GroupedStep(rules, 0);
    GroupedStep(rules, 1);
    GroupedStep(rules, 2);
    GroupedStep(rules, 3);
    GroupedStep(rules, 4);
    GroupedStep(rules, 5);
    GroupedStep(rules, 6);
    GroupedStep(rules, 7);
    assert TYPES[8..] == [] && TYPES[0..] == TYPES;
    NoKinds(rules);
    Leftwards(OfType(rules, TYPES[0]), OfType(rules, TYPES[1]), OfType(rules, TYPES[2]), OfType(rules, TYPES[3]),
              OfType(rules, TYPES[4]), OfType(rules, TYPES[5]), OfType(rules, TYPES[6]), OfType(rules, TYPES[7]));
  }

  lemma Leftwards(a: seq<Rule>, b: seq<Rule>, c: seq<Rule>, d: seq<Rule>, e: seq<Rule>, f: seq<Rule>, g: seq<Rule>, h: seq<Rule>)
    ensures a + (b + (c + (d + (e + (f + (g + (h + []))))))) == a + b + c + d + e + f + g + h
  {
  }

  lemma NoKinds(rules: seq<Rule>)
    ensures GroupedBy(rules, []) == []
  {
  }

  lemma GroupedStep(rules: seq<Rule>, i: nat)
    requires i < |TYPES|
    ensures GroupedBy(rules, TYPES[i..]) == OfType(rules, TYPES[i]) + GroupedBy(rules, TYPES[i + 1..])
  {
    hide OfType;
    assert TYPES[i..][1..] == TYPES[i + 1..];
  }

  /** The path of a location is what stands under the key for it. */
  lemma PathUnderItsKey(name: string, path: string)
    ensures LocationIn(Block(name, [Line("Path", path)])) == Some(Location(name, path, []))
    ensures LocationIn(Block(name, [])).None?
  {
    BlockIsLocation(Location(name, path, []));
    NothingReread();
    assert BlockLines(path, []) == [Line("Path", path)];
  }
}
