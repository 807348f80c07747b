/**
 * The text of the backup locations in the configuration file: the lines that are written for
 * them, and what is read from such lines. Nothing is escaped: a line break in a written value
 * makes two lines, and a name with an equals sign in it makes a setting.
 */
module ConfigText {
  import opened Common

  /** The byte that the configuration parser puts between the values of a repeated key. */
  const SEPARATOR: char := 1 as char
  const NEW_LINE: char := '\n'

  // ----- strings joined and split at a character -----

  function Join(values: seq<string>, sep: char): string
    requires values != []
  {
    if |values| == 1 then values[0] else values[0] + [sep] + Join(values[1..], sep)
  }

  function FirstOf(s: string, c: char): (i: nat)
    requires c in s
    ensures i < |s| && s[i] == c && c !in s[..i]
  {
    if s[0] == c then 0 else
      var i := 1 + FirstOf(s[1..], c);
      assert s[..i] == [s[0]] + s[1..][..i - 1];
      i
  }

  function Split(s: string, sep: char): (parts: seq<string>)
    ensures parts != []
    decreases |s|
  {
    if sep !in s then [s]
    else
      var i := FirstOf(s, sep);
      [s[..i]] + Split(s[i + 1..], sep)
  }

  ghost predicate Separable(values: seq<string>, sep: char) {
    forall v :: v in values ==> sep !in v
  }

  lemma FirstIs(v: string, c: char, rest: string)
    requires c !in v
    ensures FirstOf(v + [c] + rest, c) == |v|
  {
    var s := v + [c] + rest;
    assert s[|v|] == c;
    var i := FirstOf(s, c);
    assert forall k :: 0 <= k < |v| ==> s[k] == v[k] && v[k] in v;
    assert forall k :: 0 <= k < i ==> s[k] == s[..i][k] && s[k] in s[..i];
  }

  lemma {:induction false} SplitFirst(v: string, sep: char, rest: string)
    requires sep !in v
    ensures Split(v + [sep] + rest, sep) == [v] + Split(rest, sep)
  {
    var s := v + [sep] + rest;
    FirstIs(v, sep, rest);
    assert s[|v|] == sep && s[..|v|] == v && s[|v| + 1..] == rest;
  }

  lemma {:induction false} SplitIsNotShorter(s: string, sep: char, rest: string)
    ensures |Split(s + [sep] + rest, sep)| >= 1 + |Split(rest, sep)|
    ensures sep in s ==> |Split(s + [sep] + rest, sep)| > 1 + |Split(rest, sep)|
    decreases |s|
  {
    if sep !in s {
      SplitFirst(s, sep, rest);
    } else {
      var i := FirstOf(s, sep);
      assert s + [sep] + rest == s[..i] + [sep] + (s[i + 1..] + [sep] + rest);
      SplitFirst(s[..i], sep, s[i + 1..] + [sep] + rest);
      SplitIsNotShorter(s[i + 1..], sep, rest);
    }
  }

  lemma {:induction false} SplitJoinLength(values: seq<string>, sep: char)
    requires values != []
    ensures |Split(Join(values, sep), sep)| >= |values|
    ensures !Separable(values, sep) ==> |Split(Join(values, sep), sep)| > |values|
  {
    if |values| == 1 {
      assert values == [values[0]];
    } else {
      SplitJoinLength(values[1..], sep);
      SplitIsNotShorter(values[0], sep, Join(values[1..], sep));
      assert values == [values[0]] + values[1..];
    }
  }

  lemma {:induction false} SplitJoin(values: seq<string>, sep: char)
    requires values != [] && Separable(values, sep)
    ensures Split(Join(values, sep), sep) == values
  {
    assert values == [values[0]] + values[1..];
    if |values| > 1 {
      SplitJoin(values[1..], sep);
      SplitFirst(values[0], sep, Join(values[1..], sep));
    }
  }

  /** No part holds the character that the string was split at, or one that the string does not hold. */
  lemma {:induction false} PartsOf(s: string, sep: char, c: char)
    ensures Separable(Split(s, sep), sep)
    ensures c !in s ==> Separable(Split(s, sep), c)
    decreases |s|
  {
    if sep in s {
      var i := FirstOf(s, sep);
      PartsOf(s[i + 1..], sep, c);
    }
  }

  lemma {:induction false} JoinHolds(values: seq<string>, sep: char, c: char)
    requires values != [] && Separable(values, c) && c != sep
    ensures c !in Join(values, sep)
  {
    if |values| > 1 { JoinHolds(values[1..], sep, c); }
  }

  // ----- lines of text -----

  function Text(lines: seq<string>): string {
    if lines == [] then "" else lines[0] + [NEW_LINE] + Text(lines[1..])
  }

  lemma {:induction false} TextAppend(a: seq<string>, b: seq<string>)
    ensures Text(a + b) == Text(a) + Text(b)
  {
    if a == [] {
      assert a + b == b;
    } else {
      assert (a + b)[0] == a[0] && (a + b)[1..] == a[1..] + b;
      TextAppend(a[1..], b);
      assert Text(a + b) == a[0] + [NEW_LINE] + (Text(a[1..]) + Text(b));
    }
  }

  lemma FirstLine(lines: seq<string>)
    requires lines != []
    ensures Text(lines) == lines[0] + [NEW_LINE] + Text(lines[1..])
  {
  }

  lemma HeadAndRest<T>(s: seq<T>, t: seq<T>)
    requires s != []
    ensures s + t == [s[0]] + (s[1..] + t)
  {
  }

  lemma {:induction false} TextSplits(lines: seq<string>)
    requires Separable(lines, NEW_LINE)
    ensures Split(Text(lines), NEW_LINE) == lines + [""]
  {
    if lines != [] {
      var line, rest := lines[0], lines[1..];
      hide Split, Text;
      assert line in lines && forall l :: l in rest ==> l in lines;
      TextSplits(rest);
      SplitFirst(line, NEW_LINE, Text(rest));
      FirstLine(lines);
      HeadAndRest(lines, [""]);
    } else {
      assert lines + [""] == [""];
    }
  }

  // ----- blocks -----

  /** A setting, and a named block of them. */
  datatype Line = Line(key: string, value: string)
  datatype Block = Block(name: string, lines: seq<Line>)

  function LineText(l: Line): string {
    "\t\t" + l.key + " = " + l.value
  }

  function LineTexts(lines: seq<Line>): (r: seq<string>)
    ensures |r| == |lines| && forall i :: 0 <= i < |r| ==> r[i] == LineText(lines[i])
  {
    if lines == [] then [] else [LineText(lines[0])] + LineTexts(lines[1..])
  }

  function BlockText(b: Block): seq<string> {
    ["\t" + b.name, "\t{"] + LineTexts(b.lines) + ["\t}"]
  }

  function BlockTexts(blocks: seq<Block>): seq<string> {
    if blocks == [] then [] else BlockText(blocks[0]) + BlockTexts(blocks[1..])
  }

  const HEAD: seq<string> := ["BackupLocations", "{"]
  const FOOT: seq<string> := ["}"]

  function FileText(blocks: seq<Block>): string {
    Text(HEAD + BlockTexts(blocks) + FOOT)
  }

  // ----- reading -----

  function ReadLine(s: string): Option<Line> {
    if |s| < 2 || s[..2] != "\t\t" || '=' !in s then None
    else
      var i := FirstOf(s, '=');
      if i < 3 || s[i - 1] != ' ' || i + 1 >= |s| || s[i + 1] != ' ' then None
      else Some(Line(s[2..i - 1], s[i + 2..]))
  }

  /** The settings up to the end of a block, and the lines after it. */
  function ReadLines(lines: seq<string>): Option<(seq<Line>, seq<string>)>
    decreases |lines|
  {
    if lines == [] then None
    else if lines[0] == "\t}" then Some(([], lines[1..]))
    else
      var l, more := ReadLine(lines[0]), ReadLines(lines[1..]);
      if l.None? || more.None? then None else Some(([l.value] + more.value.0, more.value.1))
  }

  lemma {:induction false} ReadLinesShorter(lines: seq<string>)
    ensures ReadLines(lines).Some? ==> |ReadLines(lines).value.1| < |lines|
  {
    if lines != [] && lines[0] != "\t}" { ReadLinesShorter(lines[1..]); }
  }

  function ReadBlocks(lines: seq<string>): Option<seq<Block>>
    decreases |lines|
  {
    if lines == [] then None
    else if lines[0] == "}" then Some([])
    else if |lines| < 2 || lines[0] == "" || lines[0][0] != '\t' || '=' in lines[0] || lines[1] != "\t{" then None
    else
      var inner := ReadLines(lines[2..]);
      if inner.None? then None
      else
        ReadLinesShorter(lines[2..]);
        var more := ReadBlocks(inner.value.1);
        if more.None? then None else Some([Block(lines[0][1..], inner.value.0)] + more.value)
  }

  /** The blocks in a file, if its lines have the form that such a file has. */
  function ReadFile(file: string): Option<seq<Block>> {
    var lines := Split(file, NEW_LINE);
    if |lines| < 2 || lines[..2] != HEAD then None else ReadBlocks(lines[2..])
  }

  // ----- what has been written is read -----

  ghost predicate PlainLine(l: Line) {
    NEW_LINE !in l.key && NEW_LINE !in l.value
  }

  /** A name that stays on its line, and is not taken for a setting. */
  ghost predicate PlainName(name: string) {
    NEW_LINE !in name && '=' !in name
  }

  /** No line breaks anywhere, and names that are read as such. */
  ghost predicate PlainBlocks(blocks: seq<Block>) {
    forall b :: b in blocks ==> PlainName(b.name) && forall l :: l in b.lines ==> PlainLine(l)
  }

  ghost predicate GoodKeys(lines: seq<Line>) {
    forall l :: l in lines ==> '=' !in l.key
  }

  lemma WrittenLineIsRead(l: Line)
    requires '=' !in l.key
    ensures ReadLine(LineText(l)) == Some(l) && LineText(l) != "\t}"
  {
    var s, v := LineText(l), "\t\t" + l.key + " ";
    PartsOfLine(l);
    FirstIs(v, '=', " " + l.value);
    hide LineText, FirstOf;
    assert s[1] == '\t' && "\t}"[1] == '}';
  }

  lemma PartsOfLine(l: Line)
    ensures var s, v := LineText(l), "\t\t" + l.key + " ";
            && s == v + ['='] + (" " + l.value) && |s| >= |v| + 2 && s[|v|] == '=' && s[|v| - 1] == s[|v| + 1] == ' '
            && s[..2] == "\t\t" && s[2..|v| - 1] == l.key && s[|v| + 2..] == l.value
  {
  }

  lemma {:induction false} WrittenLinesAreRead(lines: seq<Line>, rest: seq<string>)
    requires GoodKeys(lines)
    ensures ReadLines(LineTexts(lines) + ["\t}"] + rest) == Some((lines, rest))
  {
    hide LineText, ReadLine, ReadLines;
    if lines == [] {
      EndOfBlock(rest);
      assert LineTexts(lines) + ["\t}"] + rest == ["\t}"] + rest;
    } else {
      var l, more := lines[0], LineTexts(lines[1..]);
      WrittenLinesAreRead(lines[1..], rest);
      LineBefore(l, more + ["\t}"] + rest);
      Regroup([LineText(l)], more, ["\t}"]);
      Regroup([LineText(l)], more + ["\t}"], rest);
      HeadAndRest(lines, []);
      assert lines + [] == lines && lines[1..] + [] == lines[1..];
    }
  }

  lemma EndOfBlock(rest: seq<string>)
    ensures ReadLines(["\t}"] + rest) == Some(([], rest))
  {
    assert (["\t}"] + rest)[1..] == rest;
  }

  lemma LineBefore(l: Line, more: seq<string>)
    requires '=' !in l.key
    ensures ReadLines([LineText(l)] + more) ==
            if ReadLines(more).None? then None else Some(([l] + ReadLines(more).value.0, ReadLines(more).value.1))
  {
    WrittenLineIsRead(l);
    hide LineText, ReadLine;
    assert ([LineText(l)] + more)[1..] == more;
  }

  lemma {:induction false} WrittenBlocksAreRead(blocks: seq<Block>, rest: seq<string>)
    requires forall b :: b in blocks ==> PlainName(b.name) && GoodKeys(b.lines)
    ensures ReadBlocks(BlockTexts(blocks) + FOOT + rest) == Some(blocks)
  {
    var all := BlockTexts(blocks) + FOOT + rest;
    hide BlockText, ReadLines;
    if blocks == [] {
      assert all[0] == "}";
    } else {
      var b, after := blocks[0], BlockTexts(blocks[1..]) + FOOT + rest;
      WrittenBlocksAreRead(blocks[1..], rest);
      WrittenBlockIsRead(b, after);
      assert all == BlockText(b) + after;
      assert blocks == [b] + blocks[1..];
    }
  }

  lemma WrittenBlockIsRead(b: Block, after: seq<string>)
    requires PlainName(b.name) && GoodKeys(b.lines)
    ensures var more := ReadBlocks(after);
            ReadBlocks(BlockText(b) + after) == if more.None? then None else Some([b] + more.value)
  {
    hide ReadLine, ReadLines, LineText;
    var all := BlockText(b) + after;
    WrittenLinesAreRead(b.lines, after);
    assert all[0] == "\t" + b.name && all[1] == "\t{";
    assert all[0][0] == '\t' && "}"[0] == '}' && all[0][1..] == b.name;
    assert all[2..] == LineTexts(b.lines) + ["\t}"] + after;
  }

  lemma {:induction false} PlainText(blocks: seq<Block>)
    requires PlainBlocks(blocks)
    ensures Separable(BlockTexts(blocks), NEW_LINE)
  {
    if blocks != [] {
      PlainText(blocks[1..]);
      var b := blocks[0];
      forall i | 0 <= i < |b.lines|
        ensures NEW_LINE !in LineTexts(b.lines)[i]
      {
        assert PlainLine(b.lines[i]);
      }
    }
  }

  lemma FileIsRead(blocks: seq<Block>)
    requires PlainBlocks(blocks) && forall b :: b in blocks ==> GoodKeys(b.lines)
    ensures ReadFile(FileText(blocks)) == Some(blocks)
  {
    hide BlockTexts, ReadBlocks, Split, Text;
    PlainText(blocks);
    var lines := HEAD + BlockTexts(blocks) + FOOT;
    TextSplits(lines);
    assert (lines + [""])[..2] == HEAD && (lines + [""])[2..] == BlockTexts(blocks) + FOOT + [""];
    WrittenBlocksAreRead(blocks, [""]);
  }

  // ----- what is read is plain -----

  lemma {:induction false} ReadLinesArePlain(lines: seq<string>)
    requires Separable(lines, NEW_LINE) && ReadLines(lines).Some?
    ensures forall l :: l in ReadLines(lines).value.0 ==> PlainLine(l)
    ensures Separable(ReadLines(lines).value.1, NEW_LINE)
  {
    if lines[0] != "\t}" {
      ReadLinesArePlain(lines[1..]);
      assert lines[0] in lines;
    }
  }

  lemma {:induction false} ReadBlocksArePlain(lines: seq<string>)
    requires Separable(lines, NEW_LINE) && ReadBlocks(lines).Some?
    ensures PlainBlocks(ReadBlocks(lines).value)
    decreases |lines|
  {
    if lines[0] != "}" {
      ReadLinesShorter(lines[2..]);
      ReadLinesArePlain(lines[2..]);
      ReadBlocksArePlain(ReadLines(lines[2..]).value.1);
      assert lines[0] in lines;
    }
  }

  lemma ReadFileIsPlain(file: string)
    requires ReadFile(file).Some?
    ensures PlainBlocks(ReadFile(file).value)
  {
    PartsOf(file, NEW_LINE, NEW_LINE);
    ReadBlocksArePlain(Split(file, NEW_LINE)[2..]);
  }
}
